/** The kernel heap of src/mm/heap.c: block headers linked by address, on pages taken from the
    page allocator and mapped at heap_current_end. */
module KernelHeap {
  import opened Kernel
  import opened HeapLayout
  import Pmm
  import V = Vmm
  import opened Owners

  const HEAP_MAGIC := 0xDEAD_BEEF

  /** struct heap_block; 0 stands for NULL. */
  datatype Header = Header(next: int, prev: int, size: int, free: bool, magic: int)

  function PtrAt(l: Layout, i: int): int {
    if 0 <= i < |l| then l[i].addr else 0
  }

  /** The header block i must carry. */
  function HeaderOf(l: Layout, i: nat): Header
    requires i < |l|
  {
    Header(PtrAt(l, i + 1), PtrAt(l, i - 1), l[i].size, l[i].free, HEAP_MAGIC)
  }

  /** The headers in memory are those of the layout: next and prev are mutual inverses. */
  ghost predicate Linked(h: map<int, Header>, l: Layout) {
    forall i {:trigger HeaderAt(h, l, i)} :: 0 <= i < |l| ==> HeaderAt(h, l, i)
  }

  /** Block i, if there is one, carries its header. */
  ghost predicate HeaderAt(h: map<int, Header>, l: Layout, i: nat) {
    i < |l| ==> l[i].addr in h && h[l[i].addr] == HeaderOf(l, i) && 0 < l[i].addr
  }

  // ---------------------------------------------------------------- bytes

  /** The bytes of the heap by address. A header write replaces the 20 bytes it occupies. */
  type Bytes = int -> int

  function WordByte(w: int, k: int): int {
    if k == 0 then w % 256
    else if k == 1 then w / 0x100 % 256
    else if k == 2 then w / 0x1_0000 % 256
    else w / 0x100_0000 % 256
  }

  function HeaderByte(h: Header, i: int): int {
    if i < 4 then WordByte(h.next, i)
    else if i < 8 then WordByte(h.prev, i - 4)
    else if i < 12 then WordByte(h.size, i - 8)
    else if i < 16 then (if i == 12 && h.free then 1 else 0)
    else WordByte(h.magic, i - 16)
  }

  function WithHeader(m: Bytes, a: int, h: Header): Bytes {
    x => if a <= x < a + HDR then HeaderByte(h, x - a) else m(x)
  }

  function WithZeros(m: Bytes, lo: int, hi: int): Bytes {
    x => if lo <= x < hi then 0 else m(x)
  }

  function WithByte(m: Bytes, a: int, v: int): Bytes {
    x => if x == a then v else m(x)
  }

  /** The memory after n steps of a memcpy between ranges that do not overlap. */
  function WithCopy(m: Bytes, dst: int, src: int, n: nat): Bytes {
    if n == 0 then m else WithByte(WithCopy(m, dst, src, n - 1), dst + n - 1, m(src + n - 1))
  }

  /** The payloads of the given blocks read the same. */
  ghost predicate SameBytes(live: set<Block>, m: Bytes, m': Bytes) {
    forall b, x {:trigger b in live, m'(x)} :: b in live && b.Payload() <= x < b.End() ==> m'(x) == m(x)
  }

  lemma SameBytesChain(live: set<Block>, s1: set<Block>, s2: set<Block>, m: Bytes, m1: Bytes, m2: Bytes)
    requires live <= s1 && live <= s2 && SameBytes(s1, m, m1) && SameBytes(s2, m1, m2)
    ensures SameBytes(live, m, m2)
  {
    forall c, x {:trigger c in live, m2(x)} | c in live && c.Payload() <= x < c.End() ensures m2(x) == m(x) {
      assert c in s1 && c in s2;
      assert m2(x) == m1(x);
    }
  }

  /** The 20 bytes from a lie outside every payload of the given blocks. */
  ghost predicate Harmless(live: set<Block>, a: int) {
    forall b :: b in live ==> a + HDR <= b.Payload() || b.End() <= a
  }

  lemma HeaderHarmless(l: Layout, end: int, k: nat)
    requires Tiles(l, end) && k < |l|
    ensures Harmless(Live(l), l[k].addr)
  {
    TilesOrdered(l, end);
    forall b | b in Live(l) ensures l[k].addr + HDR <= b.Payload() || b.End() <= l[k].addr {
      var j :| 0 <= j < |l| && l[j] == b;
      assert j < k || j == k || k < j;
    }
  }

  lemma InsideHarmless(l: Layout, end: int, k: nat, a: int)
    requires Tiles(l, end) && k < |l| && l[k].free && l[k].addr <= a && a + HDR <= l[k].End()
    ensures Harmless(Live(l), a)
  {
    TilesOrdered(l, end);
    forall b | b in Live(l) ensures a + HDR <= b.Payload() || b.End() <= a {
      var j :| 0 <= j < |l| && l[j] == b;
      assert j < k || k < j;
    }
  }

  /** The 20 bytes from a hold the header h has there. */
  ghost predicate StoredAt(m: Bytes, h: map<int, Header>, a: int) {
    a in h && forall x {:trigger m(x)} :: a <= x < a + HDR ==> m(x) == HeaderByte(h[a], x - a)
  }

  ghost predicate Stored(m: Bytes, h: map<int, Header>, act: set<int>) {
    forall a {:trigger StoredAt(m, h, a)} :: a in act ==> StoredAt(m, h, a)
  }

  /** A header at a overlaps no other header of the set. */
  ghost predicate Spaced(act: set<int>, a: int) {
    forall b :: b in act ==> b == a || b + HDR <= a || a + HDR <= b
  }

  /** A header can be written at a without touching a live payload or another header. */
  ghost predicate Writable(live: set<Block>, act: set<int>, a: int) {
    Harmless(live, a) && Spaced(act, a)
  }

  lemma HeaderStored(m: Bytes, h: map<int, Header>, act: set<int>, a: int, hd: Header)
    requires Stored(m, h, act) && Spaced(act, a)
    ensures Stored(WithHeader(m, a, hd), h[a := hd], act + {a})
  {
    var m', h' := WithHeader(m, a, hd), h[a := hd];
    forall b | b in act + {a} ensures StoredAt(m', h', b) {
      assert b != a ==> StoredAt(m, h, b);
    }
  }

  /** Bytes that change outside the headers leave them stored. */
  lemma StoredFrame(m: Bytes, m': Bytes, h: map<int, Header>, act: set<int>)
    requires Stored(m, h, act)
    requires forall a, x {:trigger a in act, m'(x)} :: a in act && a <= x < a + HDR ==> m'(x) == m(x)
    ensures Stored(m', h, act)
  {
    forall a | a in act ensures StoredAt(m', h, a) {
      assert StoredAt(m, h, a);
    }
  }

  lemma StoredPart(m: Bytes, h: map<int, Header>, act: set<int>, part: set<int>)
    requires Stored(m, h, act) && part <= act
    ensures Stored(m, h, part)
  {}

  /** Where the blocks of a layout have their headers. */
  ghost function Addrs(l: Layout): (r: set<int>)
    ensures forall i :: 0 <= i < |l| ==> l[i].addr in r
  {
    set i | 0 <= i < |l| :: l[i].addr
  }

  lemma AddrOf(l: Layout, a: int) returns (i: nat)
    requires a in Addrs(l)
    ensures i < |l| && l[i].addr == a
  {
    i :| 0 <= i < |l| && l[i].addr == a;
  }

  /** The header of a block overlaps no other header, and no live payload. */
  lemma BlockWritable(l: Layout, end: int, k: nat)
    requires Tiles(l, end) && k < |l|
    ensures Writable(Live(l), Addrs(l), l[k].addr)
  {
    HeaderHarmless(l, end, k);
    TilesOrdered(l, end);
    forall b | b in Addrs(l) ensures b == l[k].addr || b + HDR <= l[k].addr || l[k].addr + HDR <= b {
      var j := AddrOf(l, b);
      assert j < k || j == k || k < j;
    }
  }

  /** Nor does one inside the payload of a free block. */
  lemma InsideWritable(l: Layout, end: int, k: nat, a: int)
    requires Tiles(l, end) && k < |l| && l[k].free && l[k].Payload() <= a && a + HDR <= l[k].End()
    ensures Writable(Live(l), Addrs(l), a)
  {
    InsideHarmless(l, end, k, a);
    TilesOrdered(l, end);
    forall b | b in Addrs(l) ensures b == a || b + HDR <= a || a + HDR <= b {
      var j := AddrOf(l, b);
      assert j < k || j == k || k < j;
    }
  }

  /** Nor does one at the end of the heap. */
  lemma EndWritable(l: Layout, end: int)
    requires Tiles(l, end)
    ensures Writable(Live(l), Addrs(l), end)
    ensures forall b :: b in Live(l) ==> b.End() <= end
    ensures forall a :: a in Addrs(l) ==> a + HDR <= end
  {
    TilesOrdered(l, end);
    forall a | a in Addrs(l) ensures a + HDR <= end {
      var j := AddrOf(l, a);
    }
  }

  // ---------------------------------------------------------------- header updates

  /** The header writes of a split, in the order kmalloc makes them. */
  function SplitHeaders(h: map<int, Header>, cur: int, size: int): map<int, Header>
    requires cur in h && (h[cur].next != 0 ==> h[cur].next in h)
  {
    var nw := cur + HDR + size;
    var h1 := h[nw := Header(h[cur].next, cur, h[cur].size - size - HDR, true, HEAP_MAGIC)];
    var h2 := h1[cur := h1[cur].(next := nw)];
    var h3 := if h2[nw].next != 0 && h2[nw].next in h2 then h2[h2[nw].next := h2[h2[nw].next].(prev := nw)] else h2;
    h3[cur := h3[cur].(size := size)]
  }

  /** Blocks k and i, if different, start at different addresses. */
  ghost predicate Apart(l: Layout, k: nat, i: nat) {
    k < |l| && i < |l| && k != i ==> l[k].addr != l[i].addr
  }

  lemma SplitLinked(h: map<int, Header>, l: Layout, end: int, i: nat, size: int)
    requires Tiles(l, end) && Linked(h, l) && i < |l| && l[i].free && 0 < size && l[i].size > size + HDR
    ensures var cur := l[i].addr;
            && cur in h && (h[cur].next != 0 ==> h[cur].next in h)
            && var h' := SplitHeaders(h, cur, size);
               cur in h' && Linked(h'[cur := h'[cur].(free := false)], Carve(l, i, size))
  {
    TilesOrdered(l, end);
    var cur := l[i].addr;
    assert HeaderAt(h, l, i) && HeaderAt(h, l, i + 1);
    var l' := Carve(l, i, size);
    var h' := SplitHeaders(h, cur, size);
    var h'' := h'[cur := h'[cur].(free := false)];
    forall j | 0 <= j < |l'| ensures HeaderAt(h'', l', j) {
      var k := if j <= i then j else j - 1;
      assert HeaderAt(h, l, k) && Apart(l, k, i) && Apart(l, k, i + 1);
      assert k < i ==> l[k].End() <= l[i].addr;
      assert i < k ==> l[i].End() <= l[k].addr;
      SplitLinkedAt(h, l, i, size, j);
    }
  }

  lemma SplitLinkedAt(h: map<int, Header>, l: Layout, i: nat, size: int, j: nat)
    requires i < |l| && 0 < size && l[i].size > size + HDR && j <= |l|
    requires HeaderAt(h, l, i) && HeaderAt(h, l, i + 1)
    requires i + 1 < |l| ==> l[i].End() <= l[i + 1].addr
    requires var k := if j <= i then j else j - 1;
             HeaderAt(h, l, k) && Apart(l, k, i) && Apart(l, k, i + 1) && 0 < l[k].size
             && (k < i ==> l[k].End() <= l[i].addr) && (i < k ==> l[i].End() <= l[k].addr)
    ensures h[l[i].addr].next != 0 ==> h[l[i].addr].next in h
    ensures var l' := Carve(l, i, size);
            var h' := SplitHeaders(h, l[i].addr, size);
            var h'' := h'[l[i].addr := h'[l[i].addr].(free := false)];
            HeaderAt(h'', l', j)
  {
    var cur := l[i].addr;
    assert h[cur].next == PtrAt(l, i + 1);
    var k := if j <= i then j else j - 1;
    SplitReads(h, cur, size, l[k].addr);
    var l' := Carve(l, i, size);
    assert j < i ==> l'[j] == l[j];
    assert i + 1 < j ==> l'[j] == l[j - 1];
  }

  /** What a split leaves at each address: the two halves, the successor, and everything else. */
  lemma SplitReads(h: map<int, Header>, cur: int, size: int, a: int)
    requires cur in h && 0 < size
    requires var next := h[cur].next; next != 0 ==> next in h && next != cur && next != cur + HDR + size
    ensures var nw, next, h' := cur + HDR + size, h[cur].next, SplitHeaders(h, cur, size);
            && cur in h' && h'[cur] == h[cur].(next := nw, size := size)
            && nw in h' && h'[nw] == Header(next, cur, h[cur].size - size - HDR, true, HEAP_MAGIC)
            && (next != 0 ==> next in h' && h'[next] == h[next].(prev := nw))
            && (a in h && a != cur && a != nw && a != next ==> a in h' && h'[a] == h[a])
  {}

  /** The header writes by which the block at a absorbs its successor. */
  function AbsorbHeaders(h: map<int, Header>, a: int): map<int, Header>
    requires a in h && h[a].next in h
  {
    var n := h[h[a].next];
    var h1 := h[a := h[a].(size := h[a].size + HDR + n.size, next := n.next)];
    if n.next != 0 && n.next in h1 then h1[n.next := h1[n.next].(prev := a)] else h1
  }

  lemma AbsorbLinked(h: map<int, Header>, l: Layout, end: int, i: nat)
    requires Tiles(l, end) && Linked(h, l) && i + 1 < |l|
    ensures l[i].addr in h && h[l[i].addr].next == l[i + 1].addr && l[i + 1].addr in h
    ensures Linked(AbsorbHeaders(h, l[i].addr), Merge(l, i))
  {
    TilesOrdered(l, end);
    assert HeaderAt(h, l, i) && HeaderAt(h, l, i + 1) && HeaderAt(h, l, i + 2);
    var l', h' := Merge(l, i), AbsorbHeaders(h, l[i].addr);
    forall j | 0 <= j < |l'| ensures HeaderAt(h', l', j) {
      var k := if j <= i then j else j + 1;
      assert HeaderAt(h, l, k) && Apart(l, k, i) && Apart(l, k, i + 2);
      AbsorbLinkedAt(h, l, i, j);
    }
  }

  lemma AbsorbLinkedAt(h: map<int, Header>, l: Layout, i: nat, j: nat)
    requires i + 1 < |l| && j < |l| - 1
    requires HeaderAt(h, l, i) && HeaderAt(h, l, i + 1) && HeaderAt(h, l, i + 2) && Apart(l, i, i + 2)
    requires var k := if j <= i then j else j + 1;
             HeaderAt(h, l, k) && Apart(l, k, i) && Apart(l, k, i + 2)
    ensures var h' := AbsorbHeaders(h, l[i].addr);
            HeaderAt(h', Merge(l, i), j)
  {}

  /** Marking a block changes its header's free field and nothing else. */
  lemma MarkLinked(h: map<int, Header>, l: Layout, end: int, i: nat, free: bool)
    requires Tiles(l, end) && Linked(h, l) && i < |l|
    ensures l[i].addr in h
    ensures Linked(h[l[i].addr := h[l[i].addr].(free := free)], l[i := l[i].(free := free)])
  {
    TilesOrdered(l, end);
    assert HeaderAt(h, l, i);
    var l' := l[i := l[i].(free := free)];
    var h' := h[l[i].addr := h[l[i].addr].(free := free)];
    forall j | 0 <= j < |l'| ensures HeaderAt(h', l', j) {
      assert HeaderAt(h, l, j) && Apart(l, j, i);
      assert PtrAt(l', j + 1) == PtrAt(l, j + 1) && PtrAt(l', j - 1) == PtrAt(l, j - 1);
    }
  }

  /** The header writes of heap_expand: a new last block. */
  function AppendHeaders(h: map<int, Header>, last: int, a: int, size: int): map<int, Header> {
    var h1 := h[a := Header(0, 0, size, true, HEAP_MAGIC)];
    if last == 0 || last !in h1 then h1
    else
      var h2 := h1[last := h1[last].(next := a)];
      h2[a := h2[a].(prev := last)]
  }

  lemma AppendLinked(h: map<int, Header>, l: Layout, end: int, add: int)
    requires Tiles(l, end) && Linked(h, l) && HDR < add && HEAP_START <= end
    ensures Linked(AppendHeaders(h, PtrAt(l, |l| - 1), end, add - HDR), Grown(l, end, add))
  {
    TilesOrdered(l, end);
    var l' := Grown(l, end, add);
    assert l != [] ==> HeaderAt(h, l, |l| - 1) && l'[|l| - 1] == l[|l| - 1];
    var h' := AppendHeaders(h, PtrAt(l, |l| - 1), end, add - HDR);
    forall j | 0 <= j < |l'| ensures HeaderAt(h', l', j) {
      if j < |l| {
        assert HeaderAt(h, l, j) && Apart(l, j, |l| - 1);
        assert l'[j] == l[j] && (j + 1 < |l| ==> l'[j + 1] == l[j + 1]) && (0 < j ==> l'[j - 1] == l[j - 1]);
      }
    }
  }

  /** What a loop knows at the i-th block. */
  lemma HeaderFacts(h: map<int, Header>, l: Layout, end: int, i: nat)
    requires Tiles(l, end) && Linked(h, l) && i < |l|
    ensures HeaderAt(h, l, i)
    ensures PtrAt(l, i + 1) != 0 <==> i + 1 < |l|
    ensures PtrAt(l, i - 1) != 0 <==> 0 < i
  {
    Bounds(l, end, i);
    if i + 1 < |l| {
      Bounds(l, end, i + 1);
    }
    if 0 < i {
      Bounds(l, end, i - 1);
    }
  }

  /** Only the end of the list is NULL. */
  lemma EndOfList(l: Layout, end: int, i: nat)
    requires Tiles(l, end) && i <= |l|
    ensures PtrAt(l, i) == 0 <==> i == |l|
  {
    if i < |l| {
      Bounds(l, end, i);
    }
  }

  /** The headers that a split of block i writes. */
  ghost predicate SplitReady(h: map<int, Header>, live: set<Block>, act: set<int>, cur: int, size: int) {
    var nw := cur + HDR + size;
    && 0 < size && cur in h && cur in act && Writable(live, act, cur) && Writable(live, act, nw) && nw !in act
    && (h[cur].next != 0 ==> h[cur].next in h && h[cur].next in act && h[cur].next != cur
                             && Writable(live, act, h[cur].next))
  }

  lemma SplitIsReady(h: map<int, Header>, l: Layout, end: int, i: nat, size: int)
    requires Tiles(l, end) && Linked(h, l) && i < |l| && l[i].free && 0 < size && l[i].size > size + HDR
    ensures SplitReady(h, Live(l), Addrs(l), l[i].addr, size)
  {
    var nw := l[i].addr + HDR + size;
    HeaderFacts(h, l, end, i);
    BlockWritable(l, end, i);
    InsideWritable(l, end, i, nw);
    NotAHeader(l, end, i, nw);
    if i + 1 < |l| {
      HeaderFacts(h, l, end, i + 1);
      BlockWritable(l, end, i + 1);
      InOrder(l, end, i, i + 1);
    }
  }

  lemma NotAHeader(l: Layout, end: int, i: nat, a: int)
    requires Tiles(l, end) && i < |l| && l[i].addr < a < l[i].End()
    ensures a !in Addrs(l)
  {
    TilesOrdered(l, end);
    forall b | b in Addrs(l) ensures b != a {
      var j := AddrOf(l, b);
      assert j < i || j == i || i < j;
    }
  }

  /** The headers that the block at a writes when it absorbs its successor. */
  ghost predicate AbsorbReady(h: map<int, Header>, live: set<Block>, act: set<int>, a: int) {
    && a in h && a in act && Writable(live, act, a) && h[a].next in h && h[a].next != a
    && var n := h[h[a].next].next;
       n != 0 ==> n in h && n in act && n != a && Writable(live, act, n)
  }

  lemma AbsorbIsReady(h: map<int, Header>, l: Layout, end: int, i: nat)
    requires Tiles(l, end) && Linked(h, l) && i + 1 < |l|
    ensures AbsorbReady(h, Live(l), Addrs(l), l[i].addr)
  {
    HeaderFacts(h, l, end, i);
    HeaderFacts(h, l, end, i + 1);
    BlockWritable(l, end, i);
    InOrder(l, end, i, i + 1);
    assert TileAt(l, end, i);
    if i + 2 < |l| {
      HeaderFacts(h, l, end, i + 2);
      BlockWritable(l, end, i + 2);
      InOrder(l, end, i, i + 2);
    }
  }

  lemma ZerosKeep(live: set<Block>, m: Bytes, lo: int, hi: int)
    requires forall b :: b in live ==> b.End() <= lo
    ensures SameBytes(live, m, WithZeros(m, lo, hi))
  {}

  lemma CarveHead(l: Layout, i: nat, size: int)
    requires i < |l|
    ensures PtrAt(Carve(l, i, size), 0) == PtrAt(l, 0)
  {}

  // ---------------------------------------------------------------- moving a payload

  /** What krealloc promises when it moves `ptr` to r: the first bytes came along, and every other
      live payload reads as before. */
  ghost predicate Moved(l: Layout, m: Bytes, l': Layout, m': Bytes, ptr: int, newSize: int, r: int)
    requires IsLive(l, ptr)
  {
    var b := l[IndexOf(l, ptr)];
    && SameBytes(Live(l) - {b}, m, m')
    && exists nb ::
      && nb !in Live(l) && nb.Payload() == r && newSize <= nb.size
      && Live(l') == Live(l) - {b} + {nb}
      && Copied(m, ptr, m', r, if b.size < newSize then b.size else newSize)
  }

  /** The n bytes from `src` in m are the n bytes from `dst` in m'. */
  ghost predicate Copied(m: Bytes, src: int, m': Bytes, dst: int, n: int) {
    forall x {:trigger m'(x)} :: dst <= x < dst + n ==> m'(x) == m(src + x - dst)
  }

  lemma LiveIndex(l: Layout, end: int, b: Block)
    requires Tiles(l, end) && b in Live(l)
    ensures IsLive(l, b.Payload()) && l[IndexOf(l, b.Payload())] == b && 0 < b.size && 0 < b.Payload()
  {
    TilesOrdered(l, end);
    var j :| 0 <= j < |l| && l[j] == b;
    var i := IndexOf(l, b.Payload());
    assert i < |l| && Apart(l, i, j);
  }

  lemma CopyCopies(m: Bytes, dst: int, src: int, n: nat)
    ensures Copied(m, src, WithCopy(m, dst, src, n), dst, n)
  {
    var m' := WithCopy(m, dst, src, n);
    forall x {:trigger m'(x)} | dst <= x < dst + n ensures m'(x) == m(src + x - dst) {
      CopyAt(m, dst, src, n, x);
    }
  }

  lemma {:induction false} CopyAt(m: Bytes, dst: int, src: int, n: nat, x: int)
    ensures WithCopy(m, dst, src, n)(x) == if dst <= x < dst + n then m(src + (x - dst)) else m(x)
  {
    if n > 0 {
      CopyAt(m, dst, src, n - 1, x);
    }
  }

  /** The three stages of krealloc put together: kmalloc (m to m1), memcpy and kfree (m1 to m2). */
  lemma MoveComposes(l: Layout, m: Bytes, m1: Bytes, m2: Bytes, b: Block, nb: Block, n: nat)
    requires b in Live(l) && nb !in Live(l) && n <= b.size
    requires SameBytes(Live(l), m, m1)
    requires SameBytes(Live(l) + {nb} - {b} - {nb}, m1, m2) && Copied(m1, b.Payload(), m2, nb.Payload(), n)
    ensures SameBytes(Live(l) - {b}, m, m2) && Copied(m, b.Payload(), m2, nb.Payload(), n)
  {
    forall c, x {:trigger c in Live(l), m2(x)} | c in Live(l) - {b} && c.Payload() <= x < c.End()
      ensures m2(x) == m(x)
    {
      assert c in Live(l) + {nb} - {b} - {nb};
      assert m2(x) == m1(x) && m1(x) == m(x);
    }
    forall x | nb.Payload() <= x < nb.Payload() + n ensures m2(x) == m(b.Payload() + x - nb.Payload()) {
      assert m2(x) == m1(b.Payload() + x - nb.Payload());
    }
  }

  // ---------------------------------------------------------------- frames

  lemma TakenFrames(free: set<int>, data: set<int>)
    requires data <= free
    ensures |free - data| == |free| - |data|
  {
    assert free == (free - data) + data;
  }

  /** A failed mapping leaves the data frames untouched, so returning them restores the count. */
  lemma RetryKept(m: V.Memory, m': V.Memory, dir: nat, free: set<int>, data: set<int>, f2: set<int>)
    requires V.WellFormed(m) && V.WellFormed(m') && dir < V.FRAMES
    requires V.Owned(m, dir, free) && data <= free && V.StepKept(m, m', dir, free - data, f2)
    ensures V.StepKept(m, m', dir, free, f2 + data) && V.Owned(m', dir, f2 + data)
  {
    assert Open(TheStep, 0);
    TakenFrames(free, data);
    assert f2 !! data && |f2 + data| == |f2| + |data|;
    assert V.Owned(m', dir, f2 + data);
  }

  /** heap_expand can be served: the pages are not mapped yet, and there are a run of n frames for the data
      and a frame for every missing table. */
  ghost predicate CanGrow(m: V.Memory, dir: nat, free: set<int>, page: nat, n: nat)
    requires V.WellFormed(m) && dir < V.FRAMES
  {
    && page + n <= V.FRAMES && V.Clear(m, dir, page, n)
    && Pmm.HasRun(free, n) && n + |V.Missing(m, dir, page, n)| <= |free|
  }

  /** Why a mapping failed, seen afterwards: a page is taken, or no frame is left and a table missing. */
  ghost predicate Stuck(m: V.Memory, dir: nat, left: set<int>, page: nat, n: nat)
    requires V.WellFormed(m) && dir < V.FRAMES && page + n <= V.FRAMES
  {
    !V.Clear(m, dir, page, n) || (left == {} && V.Missing(m, dir, page, n) != {})
  }

  /** With the data frames of the failed attempt given back, the next one cannot succeed. */
  lemma StillShort(m: V.Memory, dir: nat, left: set<int>, data: set<int>, page: nat, n: nat)
    requires V.WellFormed(m) && dir < V.FRAMES && page + n <= V.FRAMES && |data| == n && Stuck(m, dir, left, page, n)
    ensures !CanGrow(m, dir, left + data, page, n)
  {
    if left == {} && V.Missing(m, dir, page, n) != {} {
      assert left + data == data;
      assert |V.Missing(m, dir, page, n)| > 0;
    }
  }

  lemma StuckAt(m: V.Memory, m': V.Memory, dir: nat, left: set<int>, page: nat, phys: V.Word, n: nat, paging: bool,
                st: Status, done: nat)
    requires V.WellFormed(m) && V.WellFormed(m') && dir < V.FRAMES && page + n <= V.WINDOW / PAGE
    requires phys + n * PAGE <= TWO32 && done < n && V.SameExcept(m, m', dir, 0, 0)
    requires st == AlreadyMapped ==> V.ClashAt(m, dir, page, phys, done, paging)
    requires st == OutOfMemory ==> left == {} && V.Missing(m', dir, page, n) != {}
    requires st == AlreadyMapped || st == OutOfMemory
    ensures Stuck(m', dir, left, page, n)
  {
    if st == AlreadyMapped {
      assert V.Translate(m', dir, page + done) == V.Translate(m, dir, page + done);
      assert V.Translate(m', dir, page + done) != None;
    }
  }

  lemma DataFrames(free: set<int>, total: nat, p: int, n: nat)
    requires 0 < n && Range(p, p + n) <= free && forall q :: q in free ==> 0 < q < total
    ensures 0 < p && p + n <= total
  {
    assert p in Range(p, p + n) && p + n - 1 in Range(p, p + n);
  }

  // ---------------------------------------------------------------- the invariants

  /** The list in memory is the layout, and the layout tiles the heap. The bytes of the headers are
      those the layout prescribes. */
  ghost predicate BlocksOk(l: Layout, end: int, head: int, h: map<int, Header>, m: Bytes) {
    Tiles(l, end) && HEAP_START <= end && head == PtrAt(l, 0) && Linked(h, l) && Stored(m, h, Addrs(l))
  }

  ghost function BlocksSeal(l: Layout, end: int, head: int, h: map<int, Header>, m: Bytes): Seal {
    if forall k {:trigger Open(TheBlocks, k)} :: Open(TheBlocks, k) ==> BlocksOk(l, end, head, h, m)
    then Intact else Broken
  }

  /** What the invariant says about the bytes in memory. */
  lemma HeaderBytes(l: Layout, end: int, head: int, h: map<int, Header>, m: Bytes, i: nat, k: nat)
    requires BlocksSeal(l, end, head, h, m).Intact? && i < |l| && k < HDR
    ensures m(l[i].addr + k) == HeaderByte(HeaderOf(l, i), k)
  {
    assert Open(TheBlocks, 0);
    assert HeaderAt(h, l, i) && StoredAt(m, h, l[i].addr);
  }

  /** A block taken whole or split: the sealed state before, the header writes, the sealed state after. */
  lemma CarveSealed(l: Layout, end: int, head: int, h: map<int, Header>, m: Bytes, i: nat, size: int,
                    h': map<int, Header>, m': Bytes)
    requires BlocksSeal(l, end, head, h, m).Intact? && i < |l| && Fits(l[i], size) && 0 < size
    requires l[i].addr in h && (h[l[i].addr].next != 0 ==> h[l[i].addr].next in h)
    requires var cur, split := l[i].addr, l[i].size > size + HDR;
             var h1 := if split then SplitHeaders(h, cur, size) else h;
             cur in h1 && h' == h1[cur := h1[cur].(free := false)]
    requires Stored(m', h', Addrs(l) + if l[i].size > size + HDR then {l[i].addr + HDR + size} else {})
    ensures BlocksSeal(Carve(l, i, size), end, head, h', m').Intact?
  {
    assert Open(TheBlocks, 0);
    CarveKeeps(l, end, i, size);
    CarveHead(l, i, size);
    if l[i].size > size + HDR {
      SplitLinked(h, l, end, i, size);
    } else {
      MarkLinked(h, l, end, i, false);
    }
    CarveAddrs(l, i, size);
    StoredPart(m', h', Addrs(l) + (if l[i].size > size + HDR then {l[i].addr + HDR + size} else {}),
               Addrs(Carve(l, i, size)));
  }

  lemma CarveAddrs(l: Layout, i: nat, size: int)
    requires i < |l|
    ensures Addrs(Carve(l, i, size)) <= Addrs(l) + if l[i].size > size + HDR then {l[i].addr + HDR + size} else {}
  {
    var l' := Carve(l, i, size);
    forall a | a in Addrs(l') ensures a in Addrs(l) || (l[i].size > size + HDR && a == l[i].addr + HDR + size) {
      var j := AddrOf(l', a);
      assert l[i].size > size + HDR && i + 1 < j ==> l'[j] == l[j - 1];
      assert j < i ==> l'[j] == l[j];
    }
  }

  lemma MergeSealed(l: Layout, end: int, head: int, h: map<int, Header>, m: Bytes, i: nat, m': Bytes)
    requires BlocksSeal(l, end, head, h, m).Intact? && i + 1 < |l| && l[i].free && l[i + 1].free
    requires l[i].addr in h && h[l[i].addr].next in h && Stored(m', AbsorbHeaders(h, l[i].addr), Addrs(l))
    ensures BlocksSeal(Merge(l, i), end, head, AbsorbHeaders(h, l[i].addr), m').Intact?
    ensures Live(Merge(l, i)) == Live(l)
  {
    assert Open(TheBlocks, 0);
    MergeKeeps(l, end, i);
    AbsorbLinked(h, l, end, i);
    var l' := Merge(l, i);
    forall a | a in Addrs(l') ensures a in Addrs(l) {
      var j := AddrOf(l', a);
      assert l'[j].addr == (if j <= i then l[j] else l[j + 1]).addr;
    }
    StoredPart(m', AbsorbHeaders(h, l[i].addr), Addrs(l), Addrs(l'));
  }

  lemma FreeSealed(l: Layout, end: int, head: int, h: map<int, Header>, m: Bytes, i: nat, m': Bytes)
    requires BlocksSeal(l, end, head, h, m).Intact? && i < |l| && l[i].addr in h
    requires Stored(m', h[l[i].addr := h[l[i].addr].(free := true)], Addrs(l))
    ensures var l' := l[i := l[i].(free := true)];
            && BlocksSeal(l', end, head, h[l[i].addr := h[l[i].addr].(free := true)], m').Intact?
            && Live(l') == Live(l) - {l[i]}
  {
    assert Open(TheBlocks, 0);
    var l', h' := l[i := l[i].(free := true)], h[l[i].addr := h[l[i].addr].(free := true)];
    MarkLinked(h, l, end, i, true);
    UnmarkTiles(l, end, i);
    forall a | a in Addrs(l') ensures a in Addrs(l) {
      var j := AddrOf(l', a);
      assert l'[j].addr == l[j].addr;
    }
    StoredPart(m', h', Addrs(l), Addrs(l'));
  }

  lemma GrownSealed(l: Layout, end: int, head: int, h: map<int, Header>, m: Bytes, add: int, m': Bytes)
    requires BlocksSeal(l, end, head, h, m).Intact? && HDR < add
    requires Stored(m', AppendHeaders(h, PtrAt(l, |l| - 1), end, add - HDR), Addrs(l) + {end})
    ensures BlocksSeal(Grown(l, end, add), end + add, if head == 0 then end else head,
                       AppendHeaders(h, PtrAt(l, |l| - 1), end, add - HDR), m').Intact?
    ensures Live(Grown(l, end, add)) == Live(l)
  {
    assert Open(TheBlocks, 0);
    GrownKeeps(l, end, add);
    AppendLinked(h, l, end, add);
    EndOfList(l, end, 0);
    var l' := Grown(l, end, add);
    forall a | a in Addrs(l') ensures a in Addrs(l) + {end} {
      var j := AddrOf(l', a);
      assert j < |l| ==> l'[j] == l[j];
    }
    StoredPart(m', AppendHeaders(h, PtrAt(l, |l| - 1), end, add - HDR), Addrs(l) + {end}, Addrs(l'));
  }

  /** Only bytes of [lo, hi) may differ. */
  ghost predicate OnlyWithin(m: Bytes, m': Bytes, lo: int, hi: int) {
    forall x {:trigger m'(x)} :: !(lo <= x < hi) ==> m'(x) == m(x)
  }

  /** Bytes inside live payloads may change freely. */
  lemma PayloadSealed(l: Layout, end: int, head: int, h: map<int, Header>, m: Bytes, m': Bytes, b: Block)
    requires BlocksSeal(l, end, head, h, m).Intact? && b in Live(l)
    requires OnlyWithin(m, m', b.Payload(), b.End())
    ensures BlocksSeal(l, end, head, h, m').Intact?
    ensures SameBytes(Live(l) - {b}, m, m')
  {
    assert Open(TheBlocks, 0);
    forall a, x {:trigger a in Addrs(l), m'(x)} | a in Addrs(l) && a <= x < a + HDR ensures m'(x) == m(x) {
      var j := AddrOf(l, a);
      BlockWritable(l, end, j);
      assert a + HDR <= b.Payload() || b.End() <= a;
    }
    StoredFrame(m, m', h, Addrs(l));
    forall c, x {:trigger c in Live(l), m'(x)} | c in Live(l) - {b} && c.Payload() <= x < c.End()
      ensures m'(x) == m(x)
    {
      LiveDisjoint(l, end, c, b);
    }
  }

  /** The pages of the heap. */
  ghost function HeapPages(end: int): set<int> {
    Range(HEAP_START / PAGE, end / PAGE)
  }

  /** The page is not mapped, or, with paging on, to memory the page allocator does not manage: a device. */
  ghost predicate Foreign(m: V.Memory, dir: nat, total: int, paging: bool, page: nat)
    requires V.WellFormed(m) && dir < V.FRAMES && page < V.FRAMES
  {
    var t := V.Translate(m, dir, page);
    t == None || (paging && total <= t.value.frame)
  }

  /** That is all there is between the end of the heap and its limit. */
  ghost function AheadSeal(m: V.Memory, dir: nat, total: int, paging: bool, end: int): Seal
    requires V.WellFormed(m) && dir < V.FRAMES && HEAP_START <= end <= HEAP_LIMIT
  {
    if forall k {:trigger Open(TheBacking, k)} :: Open(TheBacking, k) ==>
      forall page :: end / PAGE <= page < HEAP_LIMIT / PAGE ==> Foreign(m, dir, total, paging, page)
    then Intact else Broken
  }

  /** What happens elsewhere, or to the pages the heap grows by, leaves the rest ahead of it as it is. */
  lemma StillAhead(m: V.Memory, m': V.Memory, dir: nat, total: int, paging: bool, end: int, end': int, lo: int, hi: int)
    requires V.WellFormed(m) && V.WellFormed(m') && dir < V.FRAMES
    requires HEAP_START <= end <= end' <= HEAP_LIMIT && end % PAGE == 0 && end' % PAGE == 0
    requires AheadSeal(m, dir, total, paging, end).Intact? && V.SameExcept(m, m', dir, lo, hi)
    requires hi <= end' / PAGE || HEAP_LIMIT / PAGE <= lo
    ensures AheadSeal(m', dir, total, paging, end').Intact?
  {
    assert Open(TheBacking, 0);
    forall k | end' / PAGE <= k < HEAP_LIMIT / PAGE ensures Foreign(m', dir, total, paging, k) {
      assert Foreign(m, dir, total, paging, k);
      assert V.Translate(m', dir, k) == V.Translate(m, dir, k);
    }
  }

  /** Unmapping does no harm there. */
  lemma AheadWiped(m: V.Memory, m': V.Memory, dir: nat, total: int, paging: bool, end: int, pages: set<int>)
    requires V.WellFormed(m) && V.WellFormed(m') && dir < V.FRAMES && HEAP_START <= end <= HEAP_LIMIT && end % PAGE == 0
    requires AheadSeal(m, dir, total, paging, end).Intact? && Wiped(m, m', dir, pages)
    ensures AheadSeal(m', dir, total, paging, end).Intact?
  {
    assert Open(TheBacking, 0);
    forall k | end / PAGE <= k < HEAP_LIMIT / PAGE ensures Foreign(m', dir, total, paging, k) {
      assert Foreign(m, dir, total, paging, k);
      WipedMeans(m, m', dir, pages, k);
    }
  }

  /** Frames of the page allocator clash with every page that is mapped ahead. */
  lemma AheadClash(m: V.Memory, dir: nat, total: int, paging: bool, end: int, n: nat, phys: V.Word, i: nat)
    requires V.WellFormed(m) && dir < V.FRAMES && HEAP_START <= end && end % PAGE == 0 && end + n * PAGE <= HEAP_LIMIT
    requires AheadSeal(m, dir, total, paging, end).Intact? && phys % PAGE == 0 && phys / PAGE + n <= total <= V.FRAMES
    requires i <= n
    ensures end / PAGE + n <= V.FRAMES && phys + n * PAGE <= TWO32
    ensures V.NoClash(m, dir, end / PAGE, phys, i, paging) <==> V.Clear(m, dir, end / PAGE, i)
  {
    assert Open(TheBacking, 0);
    var page := end / PAGE;
    forall k {:trigger V.ClashAt(m, dir, page, phys, k, paging)} | 0 <= k < i
      ensures V.ClashAt(m, dir, page, phys, k, paging) <==> V.Translate(m, dir, page + k) != None
    {
      assert Foreign(m, dir, total, paging, page + k);
      FrameInRange(phys, k);
    }
    if V.NoClash(m, dir, page, phys, i, paging) {
      forall q | page <= q < page + i ensures V.Translate(m, dir, q) == None {
        assert !V.ClashAt(m, dir, page, phys, q - page, paging);
      }
    }
  }

  /** The pages from the old end to the new one. */
  lemma GrownPages(end: int, n: nat)
    requires HEAP_START <= end && end % PAGE == 0 && end + n * PAGE <= HEAP_LIMIT
    ensures (end + n * PAGE) / PAGE == end / PAGE + n && end / PAGE + n <= V.WINDOW / PAGE
    ensures HeapPages(end + n * PAGE) == HeapPages(end) + Range(end / PAGE, end / PAGE + n)
    ensures forall p :: p in HeapPages(end) ==> !(end / PAGE <= p < end / PAGE + n)
  {}

  // ---------------------------------------------------------------- the code

  class Allocator {
    const vmm: V.AddressSpace
    var head: int
    var end: int
    var hdrs: map<int, Header>
    var bytes: Bytes
    ghost var layout: Layout

    /** The start of heap_init, before its heap_expand. */
    constructor (vmm: V.AddressSpace, bytes: Bytes)
      requires vmm.Valid()
      requires forall page :: HEAP_START / PAGE <= page < HEAP_LIMIT / PAGE ==>
                 Foreign(vmm.mem, vmm.dir, vmm.pmm.total, vmm.paging, page)
      ensures this.vmm == vmm && Valid() && layout == [] && end == HEAP_START
    {
      this.vmm, head, end, hdrs, this.bytes := vmm, 0, HEAP_START, map[], bytes;
      layout := [];
      new;
      assert Addrs([]) == {};
      HoldsNothing(vmm.mem, vmm.dir, Pmm.FreeSet(vmm.pmm.taken), vmm.pmm.total);
      assert HeapPages(end) == {};
    }

    /** The list in memory is the layout; see BlocksOk. */
    ghost predicate Blocks()
      reads this
    {
      HEAP_START <= end <= HEAP_LIMIT && end % PAGE == 0 && BlocksSeal(layout, end, head, hdrs, bytes).Intact?
    }

    ghost predicate Valid()
      reads this, vmm, vmm.pmm, vmm.pmm.bits
    {
      && Blocks() && vmm.Valid() && AheadSeal(vmm.mem, vmm.dir, vmm.pmm.total, vmm.paging, end).Intact?
      && Holds(vmm.mem, vmm.dir, Pmm.FreeSet(vmm.pmm.taken), vmm.pmm.total, HeapPages(end))
    }

    ghost function View(): Heap
      reads this
    {
      Heap(layout, end)
    }

    /** heap_expand for a request of `size` bytes by kmalloc would succeed now. */
    ghost predicate Grows(size: nat)
      reads this, vmm, vmm.pmm
      requires V.WellFormed(vmm.mem) && vmm.dir < V.FRAMES && 0 <= end
    {
      CanGrow(vmm.mem, vmm.dir, Pmm.FreeSet(vmm.pmm.taken), end / PAGE, Growth(size) / PAGE)
    }

    /** What a walk of the list finds at block i. */
    lemma Here(i: nat)
      requires Blocks() && i < |layout|
      ensures HeaderAt(hdrs, layout, i)
      ensures PtrAt(layout, i + 1) != 0 <==> i + 1 < |layout|
      ensures PtrAt(layout, i - 1) != 0 <==> 0 < i
    {
      assert Open(TheBlocks, 0);
      HeaderFacts(hdrs, layout, end, i);
    }

    /** The list starts at the head, and only its end is NULL. */
    lemma Ends(i: nat)
      requires Blocks() && i <= |layout|
      ensures head == PtrAt(layout, 0) && (PtrAt(layout, i) == 0 <==> i == |layout|)
    {
      assert Open(TheBlocks, 0);
      EndOfList(layout, end, i);
    }

    lemma Tiled()
      requires Blocks()
      ensures Tiles(layout, end)
    {
      assert Open(TheBlocks, 0);
    }

    method SetHeader(a: int, h: Header, ghost live: set<Block>, ghost act: set<int>)
      requires Stored(bytes, hdrs, act) && Writable(live, act, a)
      modifies this`hdrs, this`bytes
      ensures hdrs == old(hdrs)[a := h]
      ensures SameBytes(live, old(bytes), bytes) && Stored(bytes, hdrs, act + {a})
    {
      HeaderStored(bytes, hdrs, act, a, h);
      hdrs := hdrs[a := h];
      bytes := WithHeader(bytes, a, h);
    }

    /** A header that is already there is changed. */
    method ChangeHeader(a: int, h: Header, ghost live: set<Block>, ghost act: set<int>)
      requires Stored(bytes, hdrs, act) && Writable(live, act, a) && a in act
      modifies this`hdrs, this`bytes
      ensures hdrs == old(hdrs)[a := h]
      ensures SameBytes(live, old(bytes), bytes) && Stored(bytes, hdrs, act)
    {
      SetHeader(a, h, live, act);
      assert act + {a} == act;
    }

    /** The split of kmalloc: the tail of the block at cur becomes a block of its own. */
    method Split(cur: int, size: int, ghost live: set<Block>, ghost act: set<int>)
      requires Stored(bytes, hdrs, act) && SplitReady(hdrs, live, act, cur, size)
      modifies this`hdrs, this`bytes
      ensures hdrs == SplitHeaders(old(hdrs), cur, size)
      ensures SameBytes(live, old(bytes), bytes) && Stored(bytes, hdrs, act + {cur + HDR + size})
    {
      var nw := cur + HDR + size;
      ghost var all := act + {nw};
      SetHeader(nw, Header(hdrs[cur].next, cur, hdrs[cur].size - size - HDR, true, HEAP_MAGIC), live, act);
      ChangeHeader(cur, hdrs[cur].(next := nw), live, all);
      var next := hdrs[nw].next;
      if next != 0 {
        ChangeHeader(next, hdrs[next].(prev := nw), live, all);
      }
      ChangeHeader(cur, hdrs[cur].(size := size), live, all);
    }

    /** The block found by a scan is taken: split when worth it, then marked. */
    method TakeBlock(cur: int, size: int, ghost i: nat)
      requires Blocks() && i < |layout| && layout[i].addr == cur && Fits(layout[i], size) && 0 < size
      modifies this`hdrs, this`bytes, this`layout
      ensures Blocks() && layout == Carve(old(layout), i, size)
      ensures SameBytes(Live(old(layout)), old(bytes), bytes)
    {
      ghost var live, act := Live(layout), Addrs(layout);
      ghost var h, m := hdrs, bytes;
      Here(i);
      ReadyToTake(i, size);
      if hdrs[cur].size > size + HDR {
        Split(cur, size, live, act);
        act := act + {cur + HDR + size};
      }
      ChangeHeader(cur, hdrs[cur].(free := false), live, act);
      assert act == Addrs(layout) + if layout[i].size > size + HDR then {cur + HDR + size} else {};
      CarveSealed(layout, end, head, h, m, i, size, hdrs, bytes);
      layout := Carve(layout, i, size);
    }

    lemma ReadyToTake(i: nat, size: int)
      requires Blocks() && i < |layout| && layout[i].free && 0 < size
      ensures Stored(bytes, hdrs, Addrs(layout)) && Writable(Live(layout), Addrs(layout), layout[i].addr)
      ensures layout[i].size > size + HDR ==> SplitReady(hdrs, Live(layout), Addrs(layout), layout[i].addr, size)
      ensures layout[i].size > size + HDR ==>
                Writable(Live(layout), Addrs(layout) + {layout[i].addr + HDR + size}, layout[i].addr)
      ensures layout[i].addr in hdrs
      ensures hdrs[layout[i].addr].next != 0 ==> hdrs[layout[i].addr].next in hdrs
    {
      assert Open(TheBlocks, 0);
      BlockWritable(layout, end, i);
      HeaderFacts(hdrs, layout, end, i);
      if i + 1 < |layout| {
        HeaderFacts(hdrs, layout, end, i + 1);
      }
      if layout[i].size > size + HDR {
        SplitIsReady(hdrs, layout, end, i, size);
      }
    }

    /** One of the two scanning loops of kmalloc: take the first block that fits. */
    method ScanFit(size: int) returns (r: int)
      requires Blocks() && 0 < size
      modifies this`hdrs, this`bytes, this`layout
      ensures Blocks() && SameBytes(Live(old(layout)), old(bytes), bytes)
      ensures r == 0 <==> FirstFit(old(layout), size) == |old(layout)|
      ensures r == 0 ==> layout == old(layout)
      ensures r != 0 ==> Outcome(View(), r) == Taken(old(View()), FirstFit(old(layout), size), size)
    {
      var current := head;
      ghost var i := 0;
      Ends(0);
      while current != 0
        invariant i <= |layout| && current == PtrAt(layout, i) && (current != 0 <==> i < |layout|)
        invariant Blocks() && unchanged(this)
        invariant forall j :: 0 <= j < i ==> !Fits(layout[j], size)
        decreases |layout| - i
      {
        Here(i);
        var b := hdrs[current];
        if b.free && b.size >= size && b.magic == HEAP_MAGIC {
          assert FirstFit(layout, size) == i;
          TakeBlock(current, size, i);
          return current + HDR;
        }
        current := b.next;
        i := i + 1;
      }
      r := 0;
    }

    /** The header writes by which the block at a absorbs its successor. */
    method AbsorbNext(a: int, ghost live: set<Block>, ghost act: set<int>)
      requires Stored(bytes, hdrs, act) && AbsorbReady(hdrs, live, act, a)
      modifies this`hdrs, this`bytes
      ensures hdrs == AbsorbHeaders(old(hdrs), a)
      ensures SameBytes(live, old(bytes), bytes) && Stored(bytes, hdrs, act)
    {
      var n := hdrs[hdrs[a].next];
      ChangeHeader(a, hdrs[a].(size := hdrs[a].size + HDR + n.size, next := n.next), live, act);
      if n.next != 0 {
        ChangeHeader(n.next, hdrs[n.next].(prev := a), live, act);
      }
    }

    /** A free block absorbs its free successor: heap_defragment and both merges of kfree. */
    method Absorb(a: int, ghost i: nat)
      requires Blocks() && i + 1 < |layout| && layout[i].addr == a && layout[i].free && layout[i + 1].free
      modifies this`hdrs, this`bytes, this`layout
      ensures Blocks() && layout == Merge(old(layout), i) && Live(layout) == Live(old(layout))
      ensures SameBytes(Live(layout), old(bytes), bytes)
    {
      ghost var h, m := hdrs, bytes;
      ReadyToAbsorb(i);
      AbsorbNext(a, Live(layout), Addrs(layout));
      MergeSealed(layout, end, head, h, m, i, bytes);
      layout := Merge(layout, i);
    }

    lemma ReadyToAbsorb(i: nat)
      requires Blocks() && i + 1 < |layout|
      ensures Stored(bytes, hdrs, Addrs(layout)) && AbsorbReady(hdrs, Live(layout), Addrs(layout), layout[i].addr)
    {
      assert Open(TheBlocks, 0);
      AbsorbIsReady(hdrs, layout, end, i);
    }

    /** heap_defragment. */
    method Defragment()
      requires Blocks()
      modifies this`hdrs, this`bytes, this`layout
      ensures Blocks() && layout == Coalesce(old(layout))
      ensures Live(layout) == Live(old(layout)) && SameBytes(Live(layout), old(bytes), bytes)
    {
      var current := head;
      ghost var i := 0;
      ghost var live := Live(layout);
      Ends(0);
      while current != 0
        invariant Blocks() && i <= |layout| && current == PtrAt(layout, i) && (current != 0 <==> i < |layout|)
        invariant CoalesceFrom(layout, i) == Coalesce(old(layout))
        invariant Live(layout) == live && SameBytes(live, old(bytes), bytes)
        decreases |layout| - i
      {
        Here(i);
        if hdrs[current].next == 0 {
          break;
        }
        Here(i + 1);
        var next := hdrs[current].next;
        if hdrs[current].free && hdrs[next].free
           && hdrs[current].magic == HEAP_MAGIC && hdrs[next].magic == HEAP_MAGIC {
          Absorb(current, i);
          assert layout[i].addr == current;
          Ends(i);
        } else {
          current := next;
          i := i + 1;
        }
      }
    }

    /** kfree of NULL or a pointer to a block. A block that is already free is only logged by the code,
        which then goes on as for a live one. */
    method Kfree(ptr: int)
      requires Blocks() && (ptr != 0 ==> IsBlock(layout, ptr))
      modifies this`hdrs, this`bytes, this`layout
      ensures Blocks()
      ensures View() == if ptr == 0 then old(View()) else Free(old(View()), ptr)
      ensures ptr != 0 ==> Live(layout) == Live(old(layout)) - {old(layout)[IndexOf(old(layout), ptr)]}
      ensures SameBytes(Live(layout), old(bytes), bytes)
      ensures var l, i := old(layout), IndexOf(old(layout), ptr);
              ptr != 0 ==>
                && layout == Joined(l, if 0 < i && l[i - 1].free then i - 1 else i,
                                    if i + 1 < |l| && l[i + 1].free then i + 2 else i + 1)
                && FreeSize(layout) == FreeSize(l) + (if l[i].free then 0 else l[i].size) + HDR * (|l| - |layout|)
      ensures NoAdjacentFree(old(layout), |old(layout)|) ==> NoAdjacentFree(layout, |layout|)
    {
      if ptr == 0 {
        return;
      }
      var block := ptr - HDR;
      ghost var l, i := layout, IndexOf(layout, ptr);
      Tiled();
      MarkFree(block, i);
      MergeNext(block, i);
      MergePrev(block, i);
      FreedAgain(l, end, i, layout);
    }

    method MarkFree(block: int, ghost i: nat)
      requires Blocks() && i < |layout| && layout[i].addr == block
      modifies this`hdrs, this`bytes, this`layout
      ensures Blocks() && layout == old(layout)[i := old(layout)[i].(free := true)]
      ensures Live(layout) == Live(old(layout)) - {old(layout)[i]} && SameBytes(Live(layout), old(bytes), bytes)
    {
      ghost var h, m, act := hdrs, bytes, Addrs(layout);
      Here(i);
      ReadyToMark(i);
      ChangeHeader(block, hdrs[block].(free := true), Live(layout), act);
      FreeSealed(layout, end, head, h, m, i, bytes);
      layout := layout[i := layout[i].(free := true)];
    }

    lemma ReadyToMark(i: nat)
      requires Blocks() && i < |layout|
      ensures Stored(bytes, hdrs, Addrs(layout)) && Writable(Live(layout), Addrs(layout), layout[i].addr)
    {
      assert Open(TheBlocks, 0);
      BlockWritable(layout, end, i);
    }

    /** Merge with next free block. */
    method MergeNext(block: int, ghost i: nat)
      requires Blocks() && i < |layout| && layout[i].addr == block && layout[i].free
      modifies this`hdrs, this`bytes, this`layout
      ensures Blocks() && Live(layout) == Live(old(layout)) && SameBytes(Live(layout), old(bytes), bytes)
      ensures layout == if i + 1 < |old(layout)| && old(layout)[i + 1].free then Merge(old(layout), i) else old(layout)
    {
      Here(i);
      var next := hdrs[block].next;
      if next != 0 {
        Here(i + 1);
        if hdrs[next].free && hdrs[next].magic == HEAP_MAGIC {
          Absorb(block, i);
        }
      }
    }

    /** Merge with previous free block, which absorbs this one. */
    method MergePrev(block: int, ghost i: nat)
      requires Blocks() && i < |layout| && layout[i].addr == block && layout[i].free
      modifies this`hdrs, this`bytes, this`layout
      ensures Blocks() && Live(layout) == Live(old(layout)) && SameBytes(Live(layout), old(bytes), bytes)
      ensures layout == if 0 < i && old(layout)[i - 1].free then Merge(old(layout), i - 1) else old(layout)
    {
      Here(i);
      var prev := hdrs[block].prev;
      if prev != 0 {
        Here(i - 1);
        if hdrs[prev].free && hdrs[prev].magic == HEAP_MAGIC {
          Absorb(prev, i - 1);
        }
      }
    }

    /** A client writes a byte of a block it holds: no header and no other payload changes. */
    method ClientWrite(x: int, v: int, ghost b: Block)
      requires Blocks() && b in Live(layout) && b.Payload() <= x < b.End()
      modifies this`bytes
      ensures Blocks() && bytes == WithByte(old(bytes), x, v)
      ensures SameBytes(Live(layout) - {b}, old(bytes), bytes)
    {
      PayloadSealed(layout, end, head, hdrs, bytes, WithByte(bytes, x, v), b);
      bytes := WithByte(bytes, x, v);
    }

    /** heap_get_total_size: the whole span from HEAP_START to the heap's end. */
    method GetTotalSize() returns (total: int)
      requires Blocks()
      ensures total == end - HEAP_START
    {
      total := 0;
      var current := head;
      ghost var i := 0;
      Ends(0);
      while current != 0
        invariant i <= |layout| && current == PtrAt(layout, i) && (current != 0 <==> i < |layout|)
        invariant total == TotalTo(layout, i)
        decreases |layout| - i
      {
        Here(i);
        total := total + hdrs[current].size + HDR;
        current := hdrs[current].next;
        i := i + 1;
      }
      Tiled();
      TotalIsSpan(layout, end, i);
    }

    /** heap_get_free_size: what headers and live payloads leave. */
    method GetFreeSize() returns (freeSize: int)
      requires Blocks()
      ensures freeSize == FreeSize(layout)
      ensures freeSize == end - HEAP_START - LiveSize(layout) - HDR * |layout|
    {
      freeSize := 0;
      var current := head;
      ghost var i := 0;
      Ends(0);
      while current != 0
        invariant i <= |layout| && current == PtrAt(layout, i) && (current != 0 <==> i < |layout|)
        invariant freeSize == FreeTo(layout, i)
        decreases |layout| - i
      {
        Here(i);
        if hdrs[current].free {
          freeSize := freeSize + hdrs[current].size;
        }
        current := hdrs[current].next;
        i := i + 1;
      }
      Tiled();
      FreeIsRest(layout, end);
    }

    /** The list walk of heap_expand. */
    method LastBlock() returns (last: int)
      requires Blocks()
      ensures last == PtrAt(layout, |layout| - 1)
    {
      Ends(0);
      if head == 0 {
        return 0;
      }
      last := head;
      ghost var i := 0;
      Here(0);
      while hdrs[last].next != 0
        invariant i < |layout| && last == PtrAt(layout, i) && HeaderAt(hdrs, layout, i)
        invariant PtrAt(layout, i + 1) != 0 <==> i + 1 < |layout|
        decreases |layout| - i
      {
        last := hdrs[last].next;
        i := i + 1;
        Here(i);
      }
    }

    /** The header writes of heap_expand. */
    method LinkLast(last: int, nw: int, size: int, ghost live: set<Block>, ghost act: set<int>)
      requires Stored(bytes, hdrs, act) && Writable(live, act, nw) && last != nw
      requires last != 0 ==> last in hdrs && last in act && Writable(live, act, last)
      modifies this`hdrs, this`bytes
      ensures hdrs == AppendHeaders(old(hdrs), last, nw, size)
      ensures SameBytes(live, old(bytes), bytes) && Stored(bytes, hdrs, act + {nw})
    {
      SetHeader(nw, Header(0, 0, size, true, HEAP_MAGIC), live, act);
      if last != 0 {
        ghost var all := act + {nw};
        ChangeHeader(last, hdrs[last].(next := nw), live, all);
        ChangeHeader(nw, hdrs[nw].(prev := last), live, all);
      }
    }

    /** The new block of heap_expand: cleared memory, a header, and the link from the last block. */
    method AppendBlock(add: int)
      requires Blocks() && HDR < add && add % PAGE == 0 && end + add <= HEAP_LIMIT
      modifies this`head, this`end, this`hdrs, this`bytes, this`layout
      ensures Blocks() && layout == Grown(old(layout), old(end), add) && end == old(end) + add
      ensures SameBytes(Live(layout), old(bytes), bytes) && Live(layout) == Live(old(layout))
    {
      ghost var h, m := hdrs, bytes;
      WriteLast(add);
      GrownSealed(layout, end, head, h, m, add, bytes);
      if head == 0 {
        head := end;
      }
      layout := Grown(layout, end, add);
      end := end + add;
    }

    /** Its writes to memory. */
    method WriteLast(add: int)
      requires Blocks() && HDR < add
      modifies this`hdrs, this`bytes
      ensures hdrs == AppendHeaders(old(hdrs), PtrAt(layout, |layout| - 1), end, add - HDR)
      ensures SameBytes(Live(layout), old(bytes), bytes) && Stored(bytes, hdrs, Addrs(layout) + {end})
    {
      ghost var live, act, m := Live(layout), Addrs(layout), bytes;
      var last := LastBlock();
      ReadyToAppend();
      ClearBytes(end, end + add, live, act);
      ghost var m1 := bytes;
      LinkLast(last, end, add - HDR, live, act);
      SameBytesChain(live, live, live, m, m1, bytes);
    }

    /** The memset of heap_expand. */
    method ClearBytes(lo: int, hi: int, ghost live: set<Block>, ghost act: set<int>)
      requires Stored(bytes, hdrs, act)
      requires (forall b :: b in live ==> b.End() <= lo) && (forall a :: a in act ==> a + HDR <= lo)
      modifies this`bytes
      ensures SameBytes(live, old(bytes), bytes) && Stored(bytes, hdrs, act)
    {
      ZerosKeep(live, bytes, lo, hi);
      StoredFrame(bytes, WithZeros(bytes, lo, hi), hdrs, act);
      bytes := WithZeros(bytes, lo, hi);
    }

    lemma ReadyToAppend()
      requires Blocks()
      ensures Stored(bytes, hdrs, Addrs(layout)) && Writable(Live(layout), Addrs(layout), end)
      ensures forall b :: b in Live(layout) ==> b.End() <= end
      ensures forall a :: a in Addrs(layout) ==> a + HDR <= end
      ensures var last := PtrAt(layout, |layout| - 1);
              last != 0 ==> last in hdrs && last in Addrs(layout) && Writable(Live(layout), Addrs(layout), last)
      ensures PtrAt(layout, |layout| - 1) != end
    {
      assert Open(TheBlocks, 0);
      EndWritable(layout, end);
      if layout != [] {
        HeaderFacts(hdrs, layout, end, |layout| - 1);
        BlockWritable(layout, end, |layout| - 1);
      }
    }

    /** One attempt of heap_expand: take `n` frames and map them at `va`, or give everything back. It
        succeeds exactly when CanGrow says so, and a failed attempt does not make the next one succeed. */
    method MapFrames(va: int, n: nat) returns (ok: bool)
      requires vmm.Valid() && va % PAGE == 0 && HEAP_START <= va && 0 < n && va + n * PAGE <= HEAP_LIMIT
      requires AheadSeal(vmm.mem, vmm.dir, vmm.pmm.total, vmm.paging, va).Intact?
      modifies vmm`mem, vmm.pmm`freePages, vmm.pmm`usedPages, vmm.pmm`taken, vmm.pmm.bits
      ensures vmm.Valid()
      ensures ok <==> CanGrow(old(vmm.mem), vmm.dir, old(Pmm.FreeSet(vmm.pmm.taken)), va / PAGE, n)
      ensures !ok ==> !CanGrow(vmm.mem, vmm.dir, Pmm.FreeSet(vmm.pmm.taken), va / PAGE, n)
      ensures !ok ==> V.SameExcept(old(vmm.mem), vmm.mem, vmm.dir, 0, 0)
      ensures !ok ==>
                V.StepKept(old(vmm.mem), vmm.mem, vmm.dir, old(Pmm.FreeSet(vmm.pmm.taken)), Pmm.FreeSet(vmm.pmm.taken))
      ensures ok ==> Grew(old(vmm.mem), vmm.mem, vmm.dir, old(Pmm.FreeSet(vmm.pmm.taken)), Pmm.FreeSet(vmm.pmm.taken),
                          vmm.pmm.total, va / PAGE, va / PAGE + n)
      ensures ok ==> V.FramesMoved(old(vmm.mem), vmm.mem, vmm.dir, old(Pmm.FreeSet(vmm.pmm.taken)),
                                   Pmm.FreeSet(vmm.pmm.taken), n)
    {
      ghost var m, free := vmm.mem, Pmm.FreeSet(vmm.pmm.taken);
      var phys := AllocFrames(n);
      if phys == 0 {
        NothingKept(free);
        return false;
      }
      ghost var data := Range(phys / PAGE, phys / PAGE + n);
      RangeSize(phys / PAGE, phys / PAGE + n);
      TakenFrames(free, data);
      ok := MapOrReturn(va, phys, n, free);
    }

    lemma NothingKept(free: set<int>)
      requires vmm.Valid() && free == Pmm.FreeSet(vmm.pmm.taken)
      ensures V.StepKept(vmm.mem, vmm.mem, vmm.dir, free, free)
    {
      assert Open(TheTables, 0);
    }

    /** The mapping of an attempt, once it has its frames. */
    method MapOrReturn(va: int, phys: nat, n: nat, ghost free: set<int>) returns (ok: bool)
      requires vmm.Valid() && va % PAGE == 0 && HEAP_START <= va && 0 < n && va + n * PAGE <= HEAP_LIMIT
      requires AheadSeal(vmm.mem, vmm.dir, vmm.pmm.total, vmm.paging, va).Intact?
      requires phys != 0 && phys % PAGE == 0 && phys / PAGE + n <= vmm.pmm.total <= V.FRAMES
      requires var data := Range(phys / PAGE, phys / PAGE + n);
               data <= free && |data| == n && Pmm.FreeSet(vmm.pmm.taken) == free - data && |free - data| == |free| - n
      requires V.Owned(vmm.mem, vmm.dir, free) && Pmm.HasRun(free, n)
      modifies vmm`mem, vmm.pmm`freePages, vmm.pmm`usedPages, vmm.pmm`taken, vmm.pmm.bits
      ensures vmm.Valid()
      ensures ok <==> CanGrow(old(vmm.mem), vmm.dir, free, va / PAGE, n)
      ensures !ok ==> !CanGrow(vmm.mem, vmm.dir, Pmm.FreeSet(vmm.pmm.taken), va / PAGE, n)
      ensures !ok ==> V.SameExcept(old(vmm.mem), vmm.mem, vmm.dir, 0, 0)
      ensures !ok ==> V.StepKept(old(vmm.mem), vmm.mem, vmm.dir, free, Pmm.FreeSet(vmm.pmm.taken))
      ensures ok ==> Grew(old(vmm.mem), vmm.mem, vmm.dir, free, Pmm.FreeSet(vmm.pmm.taken), vmm.pmm.total,
                          va / PAGE, va / PAGE + n)
      ensures ok ==> V.FramesMoved(old(vmm.mem), vmm.mem, vmm.dir, free, Pmm.FreeSet(vmm.pmm.taken), n)
    {
      ghost var m, data := vmm.mem, Range(phys / PAGE, phys / PAGE + n);
      ok := TryMap(va, phys, n);
      ghost var left := Pmm.FreeSet(vmm.pmm.taken);
      if !ok {
        RetryKept(m, vmm.mem, vmm.dir, free, data, left);
        ReturnFrames(phys, n, free);
        StillShort(vmm.mem, vmm.dir, left, data, va / PAGE, n);
        return;
      }
      MovedBy(m, vmm.mem, vmm.dir, free, data, left, n);
      RangeGrew(m, vmm.mem, vmm.dir, free, left, vmm.pmm.total, va / PAGE, n, phys, 3);
    }

    /** vmm_map_pages on the pages ahead of the heap: a failure leaves every translation as it was. */
    method TryMap(va: int, phys: nat, n: nat) returns (ok: bool)
      requires vmm.Valid() && va % PAGE == 0 && HEAP_START <= va && 0 < n && va + n * PAGE <= HEAP_LIMIT
      requires AheadSeal(vmm.mem, vmm.dir, vmm.pmm.total, vmm.paging, va).Intact?
      requires phys % PAGE == 0 && phys / PAGE + n <= vmm.pmm.total <= V.FRAMES
      modifies vmm`mem, vmm.pmm`freePages, vmm.pmm`usedPages, vmm.pmm`taken, vmm.pmm.bits
      ensures vmm.Valid() && va / PAGE + n <= V.WINDOW / PAGE && phys + n * PAGE <= TWO32
      ensures ok <==> V.Clear(old(vmm.mem), vmm.dir, va / PAGE, n)
                      && |V.Missing(old(vmm.mem), vmm.dir, va / PAGE, n)| <= old(|Pmm.FreeSet(vmm.pmm.taken)|)
      ensures ok ==> V.MappedRange(vmm.mem, vmm.dir, va / PAGE, phys, n, 3)
      ensures ok ==> V.SameExcept(old(vmm.mem), vmm.mem, vmm.dir, va / PAGE, va / PAGE + n)
      ensures !ok ==> V.SameExcept(old(vmm.mem), vmm.mem, vmm.dir, 0, 0)
      ensures !ok ==> Stuck(vmm.mem, vmm.dir, Pmm.FreeSet(vmm.pmm.taken), va / PAGE, n)
      ensures V.StepKept(old(vmm.mem), vmm.mem, vmm.dir, old(Pmm.FreeSet(vmm.pmm.taken)), Pmm.FreeSet(vmm.pmm.taken))
    {
      ghost var m, page := vmm.mem, va / PAGE;
      AheadClash(m, vmm.dir, vmm.pmm.total, vmm.paging, va, n, phys, n);
      V.RangePages(va, n);
      var st;
      ghost var done;
      st, done := vmm.MapPages(va, phys, n, 3);
      ok := st == Ok;
      if !ok {
        AheadClash(m, vmm.dir, vmm.pmm.total, vmm.paging, va, n, phys, done);
        V.RolledBack(m, vmm.mem, vmm.mem, vmm.dir, page, done);
        StuckAt(m, vmm.mem, vmm.dir, Pmm.FreeSet(vmm.pmm.taken), page, phys, n, vmm.paging, st, done);
      }
    }

    /** pmm_free_pages on frames that no table uses. */
    method ReturnFrames(phys: nat, n: nat, ghost free: set<int>)
      requires vmm.Valid() && phys != 0 && phys % PAGE == 0 && phys / PAGE + n <= vmm.pmm.total
      requires var data := Range(phys / PAGE, phys / PAGE + n);
               V.WellFormed(vmm.mem) && V.Owned(vmm.mem, vmm.dir, Pmm.FreeSet(vmm.pmm.taken) + data)
      modifies vmm.pmm`freePages, vmm.pmm`usedPages, vmm.pmm`taken, vmm.pmm.bits
      ensures vmm.Valid()
      ensures Pmm.FreeSet(vmm.pmm.taken) == old(Pmm.FreeSet(vmm.pmm.taken)) + Range(phys / PAGE, phys / PAGE + n)
    {
      vmm.pmm.FreePages(phys, n);
      assert Open(TheTables, 0);
    }

    /** pmm_alloc_pages: the frames are taken from the free ones, so no table lies in them. */
    method AllocFrames(n: nat) returns (phys: nat)
      requires vmm.Valid() && 0 < n
      modifies vmm.pmm`freePages, vmm.pmm`usedPages, vmm.pmm`taken, vmm.pmm.bits
      ensures vmm.Valid() && V.Owned(vmm.mem, vmm.dir, old(Pmm.FreeSet(vmm.pmm.taken)))
      ensures phys == 0 <==> !Pmm.HasRun(old(Pmm.FreeSet(vmm.pmm.taken)), n)
      ensures phys == 0 ==> Pmm.FreeSet(vmm.pmm.taken) == old(Pmm.FreeSet(vmm.pmm.taken))
      ensures phys != 0 ==> phys % PAGE == 0 && phys / PAGE + n <= vmm.pmm.total <= V.FRAMES
      ensures phys != 0 ==> Range(phys / PAGE, phys / PAGE + n) <= old(Pmm.FreeSet(vmm.pmm.taken))
      ensures phys != 0 ==> Pmm.FreeSet(vmm.pmm.taken) ==
                            old(Pmm.FreeSet(vmm.pmm.taken)) - Range(phys / PAGE, phys / PAGE + n)
    {
      ghost var free := Pmm.FreeSet(vmm.pmm.taken);
      vmm.pmm.FreeIsBelow();
      phys := vmm.pmm.AllocPages(n);
      assert Open(TheTables, 0);
      if phys != 0 {
        assert Pmm.RunIn(free, phys / PAGE, n);
        DataFrames(free, vmm.pmm.total, phys / PAGE, n);
      }
    }

    /** heap_expand. It succeeds exactly when the first attempt can: a failed attempt gives back all its
        data frames and every translation, so that frames have only moved from free to page tables. */
    method Expand(additional: nat) returns (st: Status)
      requires Valid() && end + AlignUp(additional + HDR, PAGE) <= HEAP_LIMIT
      modifies this`head, this`end, this`hdrs, this`bytes, this`layout,
               vmm`mem, vmm.pmm`freePages, vmm.pmm`usedPages, vmm.pmm`taken, vmm.pmm.bits
      ensures Valid()
      ensures st == if old(CanGrow(vmm.mem, vmm.dir, Pmm.FreeSet(vmm.pmm.taken), end / PAGE,
                                   AlignUp(additional + HDR, PAGE) / PAGE))
                    then Ok else OutOfMemory
      ensures var add := AlignUp(additional + HDR, PAGE);
              st == Ok ==> layout == Grown(old(layout), old(end), add) && end == old(end) + add
      ensures Live(layout) == Live(old(layout)) && SameBytes(Live(layout), old(bytes), bytes)
      ensures st != Ok ==> View() == old(View()) && bytes == old(bytes)
      ensures st != Ok ==> V.SameExcept(old(vmm.mem), vmm.mem, vmm.dir, 0, 0)
      ensures V.SameExcept(old(vmm.mem), vmm.mem, vmm.dir, old(end) / PAGE, end / PAGE)
      ensures Grew(old(vmm.mem), vmm.mem, vmm.dir, old(Pmm.FreeSet(vmm.pmm.taken)), Pmm.FreeSet(vmm.pmm.taken),
                   vmm.pmm.total, old(end) / PAGE, end / PAGE)
      ensures V.FramesMoved(old(vmm.mem), vmm.mem, vmm.dir, old(Pmm.FreeSet(vmm.pmm.taken)), Pmm.FreeSet(vmm.pmm.taken),
                            if st == Ok then AlignUp(additional + HDR, PAGE) / PAGE else 0)
    {
      var add := AlignUp(additional + HDR, PAGE);
      ExpandSize(additional);
      var ok := ExpandBy(add, add / PAGE);
      st := if ok then Ok else OutOfMemory;
    }

    /** heap_expand once the size is rounded. */
    method ExpandBy(add: nat, numPages: nat) returns (ok: bool)
      requires Valid() && 0 < numPages && add == numPages * PAGE && end + add <= HEAP_LIMIT
      modifies this`head, this`end, this`hdrs, this`bytes, this`layout,
               vmm`mem, vmm.pmm`freePages, vmm.pmm`usedPages, vmm.pmm`taken, vmm.pmm.bits
      ensures Valid()
      ensures ok <==> old(CanGrow(vmm.mem, vmm.dir, Pmm.FreeSet(vmm.pmm.taken), end / PAGE, numPages))
      ensures ok ==> layout == Grown(old(layout), old(end), add) && end == old(end) + add
      ensures Live(layout) == Live(old(layout)) && SameBytes(Live(layout), old(bytes), bytes)
      ensures !ok ==> View() == old(View()) && bytes == old(bytes)
      ensures !ok ==> V.SameExcept(old(vmm.mem), vmm.mem, vmm.dir, 0, 0)
      ensures V.SameExcept(old(vmm.mem), vmm.mem, vmm.dir, old(end) / PAGE, end / PAGE)
      ensures Grew(old(vmm.mem), vmm.mem, vmm.dir, old(Pmm.FreeSet(vmm.pmm.taken)), Pmm.FreeSet(vmm.pmm.taken),
                   vmm.pmm.total, old(end) / PAGE, end / PAGE)
      ensures V.FramesMoved(old(vmm.mem), vmm.mem, vmm.dir, old(Pmm.FreeSet(vmm.pmm.taken)), Pmm.FreeSet(vmm.pmm.taken),
                            if ok then numPages else 0)
    {
      GrownPages(end, numPages);
      ok := TryThrice(numPages);
      if ok {
        AppendBlock(add);
      }
    }

    /** The retry loop of heap_expand, up to the point where an attempt succeeds. */
    method TryThrice(n: nat) returns (ok: bool)
      requires Valid() && 0 < n && end + n * PAGE <= HEAP_LIMIT
      modifies vmm`mem, vmm.pmm`freePages, vmm.pmm`usedPages, vmm.pmm`taken, vmm.pmm.bits
      ensures vmm.Valid()
      ensures AheadSeal(vmm.mem, vmm.dir, vmm.pmm.total, vmm.paging, if ok then end + n * PAGE else end).Intact?
      ensures Holds(vmm.mem, vmm.dir, Pmm.FreeSet(vmm.pmm.taken), vmm.pmm.total,
                    HeapPages(if ok then end + n * PAGE else end))
      ensures ok <==> old(CanGrow(vmm.mem, vmm.dir, Pmm.FreeSet(vmm.pmm.taken), end / PAGE, n))
      ensures !ok ==> V.SameExcept(old(vmm.mem), vmm.mem, vmm.dir, 0, 0)
      ensures V.SameExcept(old(vmm.mem), vmm.mem, vmm.dir, end / PAGE, if ok then end / PAGE + n else end / PAGE)
      ensures Grew(old(vmm.mem), vmm.mem, vmm.dir, old(Pmm.FreeSet(vmm.pmm.taken)), Pmm.FreeSet(vmm.pmm.taken),
                   vmm.pmm.total, end / PAGE, if ok then end / PAGE + n else end / PAGE)
      ensures V.FramesMoved(old(vmm.mem), vmm.mem, vmm.dir, old(Pmm.FreeSet(vmm.pmm.taken)), Pmm.FreeSet(vmm.pmm.taken),
                            if ok then n else 0)
    {
      ghost var m, free, lo := vmm.mem, Pmm.FreeSet(vmm.pmm.taken), end / PAGE;
      GrownPages(end, n);
      ok := Attempts(n, lo);
      ghost var end', hi := if ok then end + n * PAGE else end, if ok then lo + n else lo;
      GrewSame(m, vmm.mem, vmm.dir, free, Pmm.FreeSet(vmm.pmm.taken), vmm.pmm.total, lo, hi);
      StillAhead(m, vmm.mem, vmm.dir, vmm.pmm.total, vmm.paging, end, end', lo, hi);
      GrewHolds(m, vmm.mem, vmm.dir, free, Pmm.FreeSet(vmm.pmm.taken), vmm.pmm.total, lo, hi, HeapPages(end));
      assert HeapPages(end) + Range(lo, hi) == HeapPages(end');
    }

    /** The loop itself. */
    method Attempts(n: nat, ghost lo: nat) returns (ok: bool)
      requires vmm.Valid() && HEAP_START <= end && end % PAGE == 0 && 0 < n && end + n * PAGE <= HEAP_LIMIT
      requires lo == end / PAGE && lo + n <= V.WINDOW / PAGE
      requires AheadSeal(vmm.mem, vmm.dir, vmm.pmm.total, vmm.paging, end).Intact?
      modifies vmm`mem, vmm.pmm`freePages, vmm.pmm`usedPages, vmm.pmm`taken, vmm.pmm.bits
      ensures vmm.Valid()
      ensures ok <==> old(CanGrow(vmm.mem, vmm.dir, Pmm.FreeSet(vmm.pmm.taken), lo, n))
      ensures !ok ==> V.SameExcept(old(vmm.mem), vmm.mem, vmm.dir, 0, 0)
      ensures Grew(old(vmm.mem), vmm.mem, vmm.dir, old(Pmm.FreeSet(vmm.pmm.taken)), Pmm.FreeSet(vmm.pmm.taken),
                   vmm.pmm.total, lo, if ok then lo + n else lo)
      ensures V.FramesMoved(old(vmm.mem), vmm.mem, vmm.dir, old(Pmm.FreeSet(vmm.pmm.taken)), Pmm.FreeSet(vmm.pmm.taken),
                            if ok then n else 0)
    {
      ghost var m, free := vmm.mem, Pmm.FreeSet(vmm.pmm.taken);
      ghost var can := CanGrow(m, vmm.dir, free, lo, n);
      NothingKept(free);
      for retry := 0 to 3
        invariant vmm.Valid() && V.SameExcept(m, vmm.mem, vmm.dir, 0, 0)
        invariant AheadSeal(vmm.mem, vmm.dir, vmm.pmm.total, vmm.paging, end).Intact?
        invariant V.StepKept(m, vmm.mem, vmm.dir, free, Pmm.FreeSet(vmm.pmm.taken))
        invariant CanGrow(vmm.mem, vmm.dir, Pmm.FreeSet(vmm.pmm.taken), lo, n) == can && (retry > 0 ==> !can)
      {
        ghost var m0, free0 := vmm.mem, Pmm.FreeSet(vmm.pmm.taken);
        ok := MapFrames(end, n);
        if ok {
          AfterFailures(m, m0, vmm.mem, vmm.dir, free, free0, Pmm.FreeSet(vmm.pmm.taken), vmm.pmm.total, lo, n);
          return;
        }
        StillAhead(m0, vmm.mem, vmm.dir, vmm.pmm.total, vmm.paging, end, end, 0, 0);
        V.StepsKept(m, m0, vmm.mem, vmm.dir, free, free0, Pmm.FreeSet(vmm.pmm.taken));
        SameTwice(m, m0, vmm.mem, vmm.dir);
      }
      MovedAfter(m, vmm.mem, vmm.mem, vmm.dir, free, Pmm.FreeSet(vmm.pmm.taken), Pmm.FreeSet(vmm.pmm.taken), 0);
      NoGrowth(m, vmm.mem, vmm.dir, free, Pmm.FreeSet(vmm.pmm.taken), vmm.pmm.total, lo);
      ok := false;
    }

    /** kmalloc. The termination measure is the depth of its recursion: after growing, the first scan
        succeeds, so it calls itself at most once. It answers NULL exactly for size 0 or when no run of
        free blocks has room and heap_expand cannot be served. */
    method Kmalloc(size: nat) returns (r: int, ghost grew: bool)
      requires Valid() && size + 2 * HDR + PAGE - 1 < TWO32
      requires size != 0 && !HasRoom(layout, size) ==> end + Growth(size) <= HEAP_LIMIT
      modifies this`head, this`end, this`hdrs, this`bytes, this`layout,
               vmm`mem, vmm.pmm`freePages, vmm.pmm`usedPages, vmm.pmm`taken, vmm.pmm.bits
      ensures Valid()
      ensures Outcome(View(), r) == Malloc(old(View()), size, grew)
      ensures grew <==> size != 0 && !HasRoom(old(layout), size) && old(Grows(size))
      ensures r == 0 <==> size == 0 || (!HasRoom(old(layout), size) && !old(Grows(size)))
      ensures SameBytes(Live(old(layout)), old(bytes), bytes)
      ensures size == 0 || HasRoom(old(layout), size) ==>
                vmm.mem == old(vmm.mem) && vmm.pmm.taken == old(vmm.pmm.taken)
      ensures V.FramesMoved(old(vmm.mem), vmm.mem, vmm.dir, old(Pmm.FreeSet(vmm.pmm.taken)), Pmm.FreeSet(vmm.pmm.taken),
                            if grew then Growth(size) / PAGE else 0)
      ensures HeapGrew(old(vmm.mem), vmm.mem, vmm.dir, old(Pmm.FreeSet(vmm.pmm.taken)), Pmm.FreeSet(vmm.pmm.taken),
                       vmm.pmm.total, old(end), end)
      decreases if size == 0 || FirstFit(layout, size) < |layout| then 0 else 1
    {
      grew := false;
      GrewNothing(vmm.mem, vmm.dir, Pmm.FreeSet(vmm.pmm.taken), vmm.pmm.total, end / PAGE);
      if size == 0 {
        return 0, false;
      }
      FitIsRoom(layout, size);
      r := ScanFit(size);
      if r != 0 {
        return;
      }
      Tiled();
      CoalescedFit(layout, end, size);
      Defragment();
      r := ScanFit(size);
      if r != 0 {
        return;
      }
      r, grew := GrowAndTake(size);
    }

    /** The last part of kmalloc: heap_expand, and the recursive call. */
    method GrowAndTake(size: nat) returns (r: int, ghost grew: bool)
      requires Valid() && 0 < size && size + 2 * HDR + PAGE - 1 < TWO32 && end + Growth(size) <= HEAP_LIMIT
      requires FirstFit(layout, size) == |layout|
      modifies this`head, this`end, this`hdrs, this`bytes, this`layout,
               vmm`mem, vmm.pmm`freePages, vmm.pmm`usedPages, vmm.pmm`taken, vmm.pmm.bits
      ensures Valid() && (grew <==> old(Grows(size))) && (r == 0 <==> !grew)
      ensures !grew ==> View() == old(View())
      ensures grew ==> Outcome(View(), r) == GrownTaken(old(View()), size)
      ensures SameBytes(Live(old(layout)), old(bytes), bytes)
      ensures V.FramesMoved(old(vmm.mem), vmm.mem, vmm.dir, old(Pmm.FreeSet(vmm.pmm.taken)), Pmm.FreeSet(vmm.pmm.taken),
                            if grew then Growth(size) / PAGE else 0)
      ensures HeapGrew(old(vmm.mem), vmm.mem, vmm.dir, old(Pmm.FreeSet(vmm.pmm.taken)), Pmm.FreeSet(vmm.pmm.taken),
                       vmm.pmm.total, old(end), end)
      decreases 1, 0
    {
      var st := Expand(size + HDR);
      if st != Ok {
        return 0, false;
      }
      GrowthServes(old(layout), old(end), size);
      FitIsRoom(layout, size);
      ghost var live, m, m1 := Live(layout), old(bytes), bytes;
      ghost var again;
      r, again := Kmalloc(size);
      grew := true;
      SameBytesChain(live, live, live, m, m1, bytes);
    }

    /** kmalloc again, with the block it hands out named. */
    method KmallocBlock(size: nat) returns (r: int, ghost b: Block)
      requires Valid() && 0 < size && size + 2 * HDR + PAGE - 1 < TWO32
      requires !HasRoom(layout, size) ==> end + Growth(size) <= HEAP_LIMIT
      modifies this`head, this`end, this`hdrs, this`bytes, this`layout,
               vmm`mem, vmm.pmm`freePages, vmm.pmm`usedPages, vmm.pmm`taken, vmm.pmm.bits
      ensures Valid() && SameBytes(Live(old(layout)), old(bytes), bytes)
      ensures r == 0 <==> !HasRoom(old(layout), size) && !old(Grows(size))
      ensures r == 0 ==> Live(layout) == Live(old(layout))
      ensures r != 0 ==> b !in Live(old(layout)) && b.Payload() == r && size <= b.size
      ensures r != 0 ==> Live(layout) == Live(old(layout)) + {b}
    {
      ghost var grew;
      Tiled();
      r, grew := Kmalloc(size);
      b := MallocFacts(old(View()), size, grew);
    }

    /** krealloc of NULL or a pointer to a block. */
    method Krealloc(ptr: int, newSize: nat) returns (r: int)
      requires Valid() && (ptr != 0 ==> IsBlock(layout, ptr)) && newSize + 2 * HDR + PAGE - 1 < TWO32
      requires newSize != 0 && !HasRoom(layout, newSize) ==> end + Growth(newSize) <= HEAP_LIMIT
      modifies this`head, this`end, this`hdrs, this`bytes, this`layout,
               vmm`mem, vmm.pmm`freePages, vmm.pmm`usedPages, vmm.pmm`taken, vmm.pmm.bits
      ensures Valid()
      ensures ptr == 0 ==> (r == 0 <==> newSize == 0 || (!HasRoom(old(layout), newSize) && !old(Grows(newSize))))
      ensures ptr == 0 ==> Outcome(View(), r) == Malloc(old(View()), newSize, newSize != 0 && old(Grows(newSize)))
      ensures ptr == 0 ==> SameBytes(Live(old(layout)), old(bytes), bytes)
      ensures ptr != 0 && newSize == 0 ==> r == 0 && View() == Free(old(View()), ptr)
      ensures ptr != 0 && newSize == 0 ==> SameBytes(Live(layout), old(bytes), bytes)
      ensures ptr != 0 && newSize != 0 ==>
                (r == 0 <==> !IsLive(old(layout), ptr) || (!HasRoom(old(layout), newSize) && !old(Grows(newSize))))
      ensures ptr != 0 && newSize != 0 && !IsLive(old(layout), ptr) ==> View() == old(View()) && bytes == old(bytes)
      ensures ptr != 0 && newSize != 0 && r == 0 ==>
                Live(layout) == Live(old(layout)) && SameBytes(Live(layout), old(bytes), bytes)
      ensures ptr != 0 && newSize != 0 && r != 0 ==> Moved(old(layout), old(bytes), layout, bytes, ptr, newSize, r)
    {
      if ptr == 0 {
        ghost var grew;
        ghost var grows := newSize != 0 && Grows(newSize);
        Tiled();
        GrowsOrNot(View(), newSize, grows);
        r, grew := Kmalloc(newSize);
        return;
      }
      if newSize == 0 {
        Kfree(ptr);
        return 0;
      }
      var block := ptr - HDR;
      Here(IndexOf(layout, ptr));
      if hdrs[block].magic != HEAP_MAGIC || hdrs[block].free {
        return 0;
      }
      r := MoveBlock(ptr, newSize);
    }

    /** The part of krealloc that moves a live block. */
    method MoveBlock(ptr: int, newSize: nat) returns (r: int)
      requires Valid() && IsLive(layout, ptr) && 0 < newSize && newSize + 2 * HDR + PAGE - 1 < TWO32
      requires !HasRoom(layout, newSize) ==> end + Growth(newSize) <= HEAP_LIMIT
      modifies this`head, this`end, this`hdrs, this`bytes, this`layout,
               vmm`mem, vmm.pmm`freePages, vmm.pmm`usedPages, vmm.pmm`taken, vmm.pmm.bits
      ensures Valid()
      ensures r == 0 <==> !HasRoom(old(layout), newSize) && !old(Grows(newSize))
      ensures r == 0 ==> Live(layout) == Live(old(layout)) && SameBytes(Live(layout), old(bytes), bytes)
      ensures r != 0 ==> Moved(old(layout), old(bytes), layout, bytes, ptr, newSize, r)
    {
      var block := ptr - HDR;
      ghost var l, m := layout, bytes;
      ghost var b := layout[IndexOf(layout, ptr)];
      ghost var nb;
      r, nb := KmallocBlock(newSize);
      if r == 0 {
        return;
      }
      ghost var m1 := bytes;
      Tiled();
      LiveIndex(layout, end, b);
      Here(IndexOf(layout, ptr));
      var copySize: nat := if hdrs[block].size < newSize then hdrs[block].size else newSize;
      CopyAndFree(ptr, r, copySize, b, nb);
      MoveComposes(l, m, m1, bytes, b, nb, copySize);
      assert Live(l) + {nb} - {b} == Live(l) - {b} + {nb};
    }

    /** The memcpy and kfree of krealloc. */
    method CopyAndFree(ptr: int, r: int, n: nat, ghost b: Block, ghost nb: Block)
      requires Blocks() && b in Live(layout) && nb in Live(layout) && b != nb
      requires b.Payload() == ptr && nb.Payload() == r && n <= b.size && n <= nb.size
      modifies this`hdrs, this`bytes, this`layout
      ensures Blocks() && end == old(end) && Live(layout) == Live(old(layout)) - {b}
      ensures SameBytes(Live(old(layout)) - {b} - {nb}, old(bytes), bytes)
      ensures Copied(old(bytes), ptr, bytes, r, n)
    {
      ghost var m, live := bytes, Live(layout);
      CopyCopies(bytes, r, ptr, n);
      CopyOutside(bytes, r, ptr, n, nb.End());
      PayloadSealed(layout, end, head, hdrs, bytes, WithCopy(bytes, r, ptr, n), nb);
      bytes := WithCopy(bytes, r, ptr, n);
      ghost var m1 := bytes;
      Tiled();
      LiveIndex(layout, end, b);
      Kfree(ptr);
      SameBytesChain(live - {b} - {nb}, live - {nb}, Live(layout), m, m1, bytes);
      CopySurvives(m, m1, bytes, ptr, nb, n, Live(layout));
    }
  }

  /** What growing the heap from `end` to `end'` does to frames and translations. */
  ghost predicate HeapGrew(m: V.Memory, m': V.Memory, dir: nat, free: set<int>, free': set<int>, total: int,
                           end: int, end': int)
    requires V.WellFormed(m) && V.WellFormed(m') && dir < V.FRAMES && HEAP_START <= end
  {
    && end <= end' <= HEAP_LIMIT && V.SameExcept(m, m', dir, end / PAGE, end' / PAGE)
    && Grew(m, m', dir, free, free', total, end / PAGE, end' / PAGE)
  }

  /** What kmalloc leaves when it grows a heap in which nothing fits. */
  function GrownTaken(h: Heap, size: nat): Outcome {
    Taken(Heap(Grown(h.layout, h.end, Growth(size)), h.end + Growth(size)), |h.layout|, size)
  }

  lemma ExpandSize(additional: nat)
    ensures var add := AlignUp(additional + HDR, PAGE);
            add % PAGE == 0 && HDR < add + PAGE && 0 < add / PAGE && add / PAGE * PAGE == add && HDR < add
  {
    PageAligned(additional + HDR);
  }

  lemma MovedBy(m: V.Memory, m': V.Memory, dir: nat, free: set<int>, data: set<int>, free': set<int>, n: nat)
    requires V.WellFormed(m) && V.WellFormed(m') && dir < V.FRAMES
    requires V.StepKept(m, m', dir, free - data, free') && |free - data| == |free| - n
    ensures V.FramesMoved(m, m', dir, free, free', n)
  {
    assert Open(TheStep, 0);
  }

  /** Failed attempts before, then n frames moved. */
  lemma MovedAfter(m: V.Memory, m0: V.Memory, m': V.Memory, dir: nat, free: set<int>, free0: set<int>, free': set<int>,
                   n: nat)
    requires V.WellFormed(m) && V.WellFormed(m0) && V.WellFormed(m') && dir < V.FRAMES
    requires V.StepKept(m, m0, dir, free, free0)
    requires (V.FramesMoved(m0, m', dir, free0, free', n) || (n == 0 && m' == m0 && free' == free0))
    ensures V.FramesMoved(m, m', dir, free, free', n)
  {
    assert Open(TheStep, 0);
  }

  /** Failed attempts before, then the pages of one that succeeds. */
  lemma AfterFailures(m: V.Memory, m0: V.Memory, m': V.Memory, dir: nat, free: set<int>, free0: set<int>,
                      free': set<int>, total: int, lo: nat, n: nat)
    requires V.WellFormed(m) && V.WellFormed(m0) && V.WellFormed(m') && dir < V.FRAMES && lo + n <= V.WINDOW / PAGE
    requires V.StepKept(m, m0, dir, free, free0) && V.SameExcept(m, m0, dir, 0, 0)
    requires V.FramesMoved(m0, m', dir, free0, free', n) && Grew(m0, m', dir, free0, free', total, lo, lo + n)
    ensures V.FramesMoved(m, m', dir, free, free', n) && Grew(m, m', dir, free, free', total, lo, lo + n)
  {
    MovedAfter(m, m0, m', dir, free, free0, free', n);
    NoGrowth(m, m0, dir, free, free0, total, lo);
    GrewTwice(m, m0, m', dir, free, free0, free', total, lo, lo, lo + n);
  }

  lemma SameTwice(m: V.Memory, m0: V.Memory, m': V.Memory, dir: nat)
    requires V.WellFormed(m) && V.WellFormed(m0) && V.WellFormed(m') && dir < V.FRAMES
    requires V.SameExcept(m, m0, dir, 0, 0) && V.SameExcept(m0, m', dir, 0, 0)
    ensures V.SameExcept(m, m', dir, 0, 0)
  {}

  lemma CopyOutside(m: Bytes, dst: int, src: int, n: nat, hi: int)
    requires dst + n <= hi
    ensures OnlyWithin(m, WithCopy(m, dst, src, n), dst, hi)
  {
    var m' := WithCopy(m, dst, src, n);
    forall x {:trigger m'(x)} | !(dst <= x < hi) ensures m'(x) == m(x) {
      CopyAt(m, dst, src, n, x);
    }
  }

  /** What was copied into a live block is still there after the other block is freed. */
  lemma CopySurvives(m: Bytes, m1: Bytes, m2: Bytes, src: int, nb: Block, n: nat, live: set<Block>)
    requires Copied(m, src, m1, nb.Payload(), n) && n <= nb.size && nb in live && SameBytes(live, m1, m2)
    ensures Copied(m, src, m2, nb.Payload(), n)
  {
    forall x {:trigger m2(x)} | nb.Payload() <= x < nb.Payload() + n ensures m2(x) == m(src + x - nb.Payload()) {
      assert m2(x) == m1(x);
    }
  }
}
