/** The slab cache as a value: which slab is on which of the three lists, and the free objects of
    each slab in freelist order. */
module SlabCache {
  import opened Kernel
  import opened SlabLayout
  import Lists

  /** full, partial and free are the slab lists; next is next_slab_virt. */
  datatype Cache = Cache(full: seq<int>, partial: seq<int>, free: seq<int>, chains: map<int, seq<int>>, next: int) {
    predicate Has(s: int) {
      s in full || s in partial || s in free
    }
  }

  ghost predicate Unique(s: seq<int>) {
    forall i, j :: 0 <= i < j < |s| ==> s[i] != s[j]
  }

  ghost predicate Apart(s: seq<int>, t: seq<int>) {
    forall x :: !(x in s && x in t)
  }

  ghost predicate IsObject(g: Geometry, s: int, o: int)
    requires 0 < g.align
  {
    exists i :: 0 <= i < g.count && o == Object(g, s, i)
  }

  /** The free objects of a slab: distinct, and objects of that slab. */
  ghost predicate ChainOk(g: Geometry, s: int, chain: seq<int>)
    requires 0 < g.align
  {
    Unique(chain) && forall o :: o in chain ==> IsObject(g, s, o)
  }

  /** The cache invariant. slabs_full holds exactly the slabs with no free object. */
  ghost predicate Inv(g: Geometry, c: Cache) {
    && GeometryOk(g)
    && Unique(c.full) && Unique(c.partial) && Unique(c.free)
    && Apart(c.full, c.partial) && Apart(c.full, c.free) && Apart(c.partial, c.free)
    && c.next % PAGE == 0 && SLAB_VIRT_START <= c.next
    && (forall s :: c.Has(s) ==>
          s in c.chains && s % PAGE == 0 && SLAB_VIRT_START <= s < c.next && ChainOk(g, s, c.chains[s]))
    && (forall s :: c.Has(s) ==> (c.chains[s] == [] <==> s in c.full))
  }

  /** Object o of a slab on some list, and not on that slab's freelist. */
  ghost predicate IsLive(g: Geometry, c: Cache, o: int)
    requires 0 < g.align
  {
    var s := ObjToSlab(o);
    c.Has(s) && IsObject(g, s, o) && (s in c.chains ==> o !in c.chains[s])
  }

  // ---------------------------------------------------------------- sequences

  lemma WithoutFacts(s: seq<int>, i: nat)
    requires Unique(s) && i < |s|
    ensures Unique(Lists.Without(s, i))
    ensures forall x :: x in Lists.Without(s, i) <==> x in s && x != s[i]
  {
    var w := Lists.Without(s, i);
    forall x | x in s && x != s[i] ensures x in w {
      var j :| 0 <= j < |s| && s[j] == x;
      assert w[if j < i then j else j - 1] == x;
    }
  }

  lemma AppendFacts(s: seq<int>, x: int)
    requires Unique(s) && x !in s
    ensures Unique(s + [x])
    ensures forall y :: y in s + [x] <==> y in s || y == x
  {}

  function IndexIn(s: seq<int>, x: int): (i: nat)
    ensures i <= |s| && (i < |s| ==> s[i] == x) && (i == |s| ==> x !in s)
  {
    if s == [] then 0 else if s[0] == x then 0 else 1 + IndexIn(s[1..], x)
  }

  function Remove(s: seq<int>, x: int): seq<int> {
    var i := IndexIn(s, x);
    if i < |s| then Lists.Without(s, i) else s
  }

  lemma RemoveFacts(s: seq<int>, x: int)
    requires Unique(s)
    ensures Unique(Remove(s, x))
    ensures forall y :: y in Remove(s, x) <==> y in s && y != x
  {
    if IndexIn(s, x) < |s| {
      WithoutFacts(s, IndexIn(s, x));
    }
  }

  // ---------------------------------------------------------------- a new slab

  /** The freelist new_slab builds: the objects, last one first. */
  function Built(g: Geometry, virt: int, n: nat): seq<int>
    requires 0 < g.align
  {
    if n == 0 then [] else [Object(g, virt, n - 1)] + Built(g, virt, n - 1)
  }

  lemma {:induction false} BuiltFacts(g: Geometry, virt: int, n: nat)
    requires 0 < g.align && 0 < g.size && n <= g.count
    ensures |Built(g, virt, n)| == n
    ensures forall k :: 0 <= k < n ==> Built(g, virt, n)[k] == Object(g, virt, n - 1 - k)
    ensures ChainOk(g, virt, Built(g, virt, n))
  {
    if n != 0 {
      BuiltFacts(g, virt, n - 1);
    }
    var b := Built(g, virt, n);
    forall i, j | 0 <= i < j < n ensures b[i] != b[j] {
      ObjectsDisjoint(g, virt, n - 1 - j, n - 1 - i);
    }
    forall o | o in b ensures IsObject(g, virt, o) {
      var k :| 0 <= k < n && b[k] == o;
      assert o == Object(g, virt, n - 1 - k);
    }
  }

  /** The objects of a new slab lie side by side behind its header, and the highest is handed out first. */
  lemma BuiltOrder(g: Geometry, virt: int)
    requires GeometryOk(g) && virt % PAGE == 0
    ensures var b := Built(g, virt, g.count);
            && |b| == g.count && virt + SLAB_HDR <= b[g.count - 1] < virt + SLAB_HDR + g.align
            && forall k :: 0 < k < g.count ==> b[k - 1] == b[k] + g.size
  {
    BuiltFacts(g, virt, g.count);
    FirstIs(g, virt);
    var b := Built(g, virt, g.count);
    forall k | 0 < k < g.count ensures b[k - 1] == b[k] + g.size {
      NextObject(g, virt, g.count - 1 - k);
    }
  }

  lemma FirstIs(g: Geometry, virt: int)
    requires GeometryOk(g) && virt % PAGE == 0
    ensures virt + SLAB_HDR <= Object(g, virt, 0) < virt + SLAB_HDR + g.align
  {
    FirstObject(virt, g.align);
    AlignedMultiple(SLAB_HDR, g.align);
  }

  lemma NextObject(g: Geometry, virt: int, i: int)
    requires 0 < g.align
    ensures Object(g, virt, i + 1) == Object(g, virt, i) + g.size
  {
    var n := g.size;
    assert (i + 1) * n == i * n + n;
  }

  function AddSlab(g: Geometry, c: Cache): Cache
    requires 0 < g.align && 0 <= g.count
  {
    c.(partial := c.partial + [c.next], chains := c.chains[c.next := Built(g, c.next, g.count)], next := c.next + PAGE)
  }

  lemma AddSlabKeeps(g: Geometry, c: Cache)
    requires Inv(g, c)
    ensures Inv(g, AddSlab(g, c))
    ensures forall o :: IsLive(g, AddSlab(g, c), o) <==> IsLive(g, c, o)
  {
    var c' := AddSlab(g, c);
    AddSlabInv(g, c);
    forall o ensures IsLive(g, c', o) <==> IsLive(g, c, o) {
      AddSlabLive(g, c, o);
    }
  }

  lemma AddSlabInv(g: Geometry, c: Cache)
    requires Inv(g, c)
    ensures Inv(g, AddSlab(g, c))
  {
    BuiltFacts(g, c.next, g.count);
    AppendFacts(c.partial, c.next);
  }

  /** The objects of a new slab are all on its freelist. */
  lemma AddSlabLive(g: Geometry, c: Cache, o: int)
    requires Inv(g, c)
    ensures IsLive(g, AddSlab(g, c), o) <==> IsLive(g, c, o)
  {
    BuiltFacts(g, c.next, g.count);
    var s := ObjToSlab(o);
    assert AddSlab(g, c).Has(s) <==> c.Has(s) || s == c.next;
    if s == c.next && IsObject(g, s, o) {
      var i :| 0 <= i < g.count && o == Object(g, s, i);
      assert Built(g, s, g.count)[g.count - 1 - i] == o;
    }
  }

  // ---------------------------------------------------------------- taking an object

  /** What becomes of the attempt to get a page for a new slab. */
  datatype Attempt = NoFrame | NoMapping | NewSlab

  /** Slab s, first on the partial or the free list, gives its first free object away; when that
      was its last one it moves to the full list. */
  function Popped(c: Cache, fromPartial: bool): Cache
    requires if fromPartial then c.partial != [] && c.partial[0] in c.chains && c.chains[c.partial[0]] != []
             else c.free != [] && c.free[0] in c.chains && c.chains[c.free[0]] != []
  {
    var s := if fromPartial then c.partial[0] else c.free[0];
    var rest := c.chains[s][1..];
    var c1 := c.(chains := c.chains[s := rest]);
    if rest != [] then c1
    else if fromPartial then c1.(partial := Lists.Without(c.partial, 0), full := c.full + [s])
    else c1.(free := Lists.Without(c.free, 0), full := c.full + [s])
  }

  /** kmem_cache_alloc: the cache afterwards and the object, 0 for NULL. */
  function Alloc(g: Geometry, c: Cache, attempt: Attempt): (r: (Cache, int))
    requires 0 < g.align && 0 <= g.count
  {
    var none := c.partial == [] && c.free == [];
    if none && attempt == NoFrame then (c, 0)
    else if none && attempt == NoMapping then (c.(next := c.next + PAGE), 0)
    else
      AllocFrom(if none then AddSlab(g, c) else c)
  }

  lemma PoppedKeeps(g: Geometry, c: Cache, fromPartial: bool)
    requires Inv(g, c) && if fromPartial then c.partial != [] else c.free != []
    ensures var s := if fromPartial then c.partial[0] else c.free[0];
            && s in c.chains && c.chains[s] != []
            && Inv(g, Popped(c, fromPartial))
  {
    var s := if fromPartial then c.partial[0] else c.free[0];
    assert c.Has(s) && s !in c.full;
    var chain := c.chains[s];
    assert ChainOk(g, s, chain);
    ChainTail(g, s, chain);
    if chain[1..] == [] {
      AppendFacts(c.full, s);
      WithoutFacts(if fromPartial then c.partial else c.free, 0);
    }
  }

  lemma ChainTail(g: Geometry, s: int, chain: seq<int>)
    requires 0 < g.align && ChainOk(g, s, chain) && chain != []
    ensures ChainOk(g, s, chain[1..]) && chain[0] !in chain[1..] && IsObject(g, s, chain[0])
    ensures forall o :: o in chain[1..] <==> o in chain && o != chain[0]
  {
    var t := chain[1..];
    forall o | o in chain && o != chain[0] ensures o in t {
      var j :| 0 <= j < |chain| && chain[j] == o;
      assert t[j - 1] == o;
    }
  }

  lemma PoppedLive(g: Geometry, c: Cache, fromPartial: bool)
    requires Inv(g, c) && if fromPartial then c.partial != [] else c.free != []
    requires var s := if fromPartial then c.partial[0] else c.free[0]; s in c.chains && c.chains[s] != []
    ensures var s := if fromPartial then c.partial[0] else c.free[0];
            var obj := c.chains[s][0];
            && ObjToSlab(obj) == s && obj != 0 && !IsLive(g, c, obj)
            && forall o :: IsLive(g, Popped(c, fromPartial), o) <==> IsLive(g, c, o) || o == obj
  {
    var s := if fromPartial then c.partial[0] else c.free[0];
    assert c.Has(s);
    var obj, c' := c.chains[s][0], Popped(c, fromPartial);
    ChainTail(g, s, c.chains[s]);
    SlabOf(g, s, obj);
    if c.chains[s][1..] == [] {
      AppendFacts(c.full, s);
      WithoutFacts(if fromPartial then c.partial else c.free, 0);
    }
    forall x ensures c'.Has(x) <==> c.Has(x) {}
  }

  lemma SlabOf(g: Geometry, s: int, o: int)
    requires GeometryOk(g) && s % PAGE == 0 && IsObject(g, s, o)
    ensures ObjToSlab(o) == s && s < o < s + PAGE
  {
    var i :| 0 <= i < g.count && o == Object(g, s, i);
    ObjectFacts(g, s, i);
  }

  /** The assertion in kmem_cache_alloc cannot fail, the object handed out was not live, and
      nothing else changes hands. */
  lemma AllocKeeps(g: Geometry, c: Cache, attempt: Attempt)
    requires Inv(g, c)
    ensures Inv(g, Alloc(g, c, attempt).0)
    ensures Alloc(g, c, attempt).1 == 0 <==> c.partial == [] && c.free == [] && attempt != NewSlab
    ensures Alloc(g, c, attempt).1 == 0 ==> forall o :: IsLive(g, Alloc(g, c, attempt).0, o) <==> IsLive(g, c, o)
    ensures var obj := Alloc(g, c, attempt).1;
            obj != 0 ==> !IsLive(g, c, obj)
                         && forall o :: IsLive(g, Alloc(g, c, attempt).0, o) <==> IsLive(g, c, o) || o == obj
  {
    var none := c.partial == [] && c.free == [];
    if none && attempt == NoFrame {
    } else if none && attempt == NoMapping {
      var c' := c.(next := c.next + PAGE);
      assert forall s :: c'.Has(s) <==> c.Has(s);
    } else {
      var c1 := if none then AddSlab(g, c) else c;
      if none {
        AddSlabKeeps(g, c);
      }
      AllocPops(g, c1);
      assert Alloc(g, c, attempt) == AllocFrom(c1);
    }
  }

  /** The second half of kmem_cache_alloc, on a cache that has a slab with room. */
  function AllocFrom(c: Cache): (Cache, int) {
    var fromPartial := c.partial != [];
    var s := if fromPartial then c.partial[0] else if c.free != [] then c.free[0] else 0;
    if s in c.chains && c.chains[s] != [] && (fromPartial || c.free != [])
    then (Popped(c, fromPartial), c.chains[s][0])
    else (c, 0)
  }

  lemma AllocPops(g: Geometry, c: Cache)
    requires Inv(g, c) && (c.partial != [] || c.free != [])
    ensures var (c', obj) := AllocFrom(c);
            && Inv(g, c') && obj != 0 && !IsLive(g, c, obj)
            && forall o :: IsLive(g, c', o) <==> IsLive(g, c, o) || o == obj
  {
    PoppedKeeps(g, c, c.partial != []);
    PoppedLive(g, c, c.partial != []);
  }

  // ---------------------------------------------------------------- counting objects

  ghost function Objects(g: Geometry, s: int, n: nat): set<int>
    requires 0 < g.align
  {
    if n == 0 then {} else Objects(g, s, n - 1) + {Object(g, s, n - 1)}
  }

  lemma {:induction false} ObjectsCount(g: Geometry, s: int, n: nat)
    requires 0 < g.align && 0 < g.size
    ensures |Objects(g, s, n)| == n
    ensures forall o :: o in Objects(g, s, n) <==> exists i :: 0 <= i < n && o == Object(g, s, i)
  {
    if n != 0 {
      ObjectsCount(g, s, n - 1);
      forall i | 0 <= i < n - 1 ensures Object(g, s, i) != Object(g, s, n - 1) {
        ObjectsDisjoint(g, s, i, n - 1);
      }
    }
  }

  ghost function Elements(t: seq<int>): (r: set<int>)
    ensures forall o :: o in r <==> o in t
  {
    set o | o in t
  }

  lemma {:induction false} ElementsCount(t: seq<int>)
    requires Unique(t)
    ensures |Elements(t)| == |t|
  {
    if t == [] {
      assert Elements(t) == {};
    } else {
      var n := |t| - 1;
      ElementsCount(t[..n]);
      assert Elements(t) == Elements(t[..n]) + {t[n]};
    }
  }

  lemma SubsetCount(a: set<int>, b: set<int>)
    requires a <= b
    ensures |a| <= |b| && (|a| == |b| ==> a == b)
  {
    assert b == a + (b - a);
  }

  /** A freelist holds all objects of its slab exactly when its length is the object count. */
  lemma ChainCount(g: Geometry, s: int, chain: seq<int>)
    requires GeometryOk(g) && ChainOk(g, s, chain)
    ensures |chain| <= g.count
    ensures |chain| == g.count <==> forall o :: IsObject(g, s, o) ==> o in chain
  {
    ObjectsAre(g, s);
    ListCount(chain, Objects(g, s, g.count));
  }

  lemma ListCount(t: seq<int>, b: set<int>)
    requires Unique(t) && forall o :: o in t ==> o in b
    ensures |t| <= |b|
    ensures |t| == |b| <==> forall o :: o in b ==> o in t
  {
    ElementsCount(t);
    SubsetCount(Elements(t), b);
    if forall o :: o in b ==> o in t {
      assert Elements(t) == b;
    }
  }

  lemma ObjectsAre(g: Geometry, s: int)
    requires GeometryOk(g)
    ensures |Objects(g, s, g.count)| == g.count
    ensures forall o :: o in Objects(g, s, g.count) <==> IsObject(g, s, o)
  {
    ObjectsCount(g, s, g.count);
  }

  // ---------------------------------------------------------------- giving an object back

  /** kmem_cache_free of an object of this cache. */
  function FreeObject(g: Geometry, c: Cache, obj: int): Cache {
    var s := ObjToSlab(obj);
    if s !in c.chains then c
    else
      var chain := [obj] + c.chains[s];
      var c1 := Cache(Remove(c.full, s), Remove(c.partial, s), Remove(c.free, s), c.chains[s := chain], c.next);
      if |chain| == g.count then c1.(free := c1.free + [s]) else c1.(partial := c1.partial + [s])
  }

  lemma FreeKeeps(g: Geometry, c: Cache, obj: int)
    requires Inv(g, c) && IsLive(g, c, obj)
    ensures Inv(g, FreeObject(g, c, obj))
    ensures forall o :: IsLive(g, FreeObject(g, c, obj), o) <==> IsLive(g, c, o) && o != obj
    ensures |c.chains[ObjToSlab(obj)]| < g.count
  {
    var s := ObjToSlab(obj);
    var chain, c' := c.chains[s], FreeObject(g, c, obj);
    assert ChainOk(g, s, chain);
    ChainCount(g, s, chain);
    RemoveFacts(c.full, s);
    RemoveFacts(c.partial, s);
    RemoveFacts(c.free, s);
    AppendFacts(Remove(c.free, s), s);
    AppendFacts(Remove(c.partial, s), s);
    assert ChainOk(g, s, [obj] + chain);
    forall x ensures c'.Has(x) <==> c.Has(x) {}
  }

  // ---------------------------------------------------------------- which list a slab is on

  /** Every slab but s is on the list it was on, in the same order and with the free objects it had. */
  ghost predicate OthersStay(c: Cache, c': Cache, s: int) {
    && Remove(c'.full, s) == Remove(c.full, s) && Remove(c'.partial, s) == Remove(c.partial, s)
    && Remove(c'.free, s) == Remove(c.free, s)
    && forall t :: t != s ==>
      && (t in c'.full <==> t in c.full) && (t in c'.partial <==> t in c.partial) && (t in c'.free <==> t in c.free)
      && (t in c'.chains <==> t in c.chains) && (t in c.chains ==> c'.chains[t] == c.chains[t])
  }

  /** All objects of slab s are on its freelist. */
  ghost predicate AllFree(g: Geometry, c: Cache, s: int)
    requires 0 < g.align
  {
    s in c.chains && forall o :: IsObject(g, s, o) ==> o in c.chains[s]
  }

  lemma RemoveAppended(t: seq<int>, x: int)
    requires Unique(t)
    ensures x !in t ==> Remove(t + [x], x) == t == Remove(t, x)
    ensures Remove(Remove(t, x) + [x], x) == Remove(t, x) == Remove(Remove(t, x), x)
  {
    RemoveFacts(t, x);
    RemoveLast(t, x);
    RemoveLast(Remove(t, x), x);
  }

  lemma RemoveLast(t: seq<int>, x: int)
    ensures x !in t ==> Remove(t + [x], x) == t == Remove(t, x)
  {
    if x !in t {
      var u := t + [x];
      var i := IndexIn(u, x);
      forall k | 0 <= k < |t| ensures u[k] != x {
        assert u[k] == t[k];
      }
      assert u[|t|] == x;
    }
  }

  lemma RemoveFirst(t: seq<int>)
    requires t != [] && Unique(t)
    ensures Remove(t, t[0]) == Lists.Without(t, 0) == Remove(Lists.Without(t, 0), t[0])
  {
    WithoutFacts(t, 0);
  }

  /** Freeing puts the object first on its freelist and the slab last on slabs_free if it has no live object
      left, and last on slabs_partial otherwise; other slabs stay where they are. */
  lemma FreeLists(g: Geometry, c: Cache, obj: int)
    requires Inv(g, c) && IsLive(g, c, obj)
    ensures var s, c' := ObjToSlab(obj), FreeObject(g, c, obj);
            && s in c'.chains && c'.chains[s] == [obj] + c.chains[s]
            && (s in c'.free <==> AllFree(g, c', s)) && (s in c'.partial <==> !AllFree(g, c', s)) && s !in c'.full
            && (s in c'.free ==> c'.free[|c'.free| - 1] == s) && (s in c'.partial ==> c'.partial[|c'.partial| - 1] == s)
            && OthersStay(c, c', s) && c'.next == c.next
    ensures var s, c' := ObjToSlab(obj), FreeObject(g, c, obj);
            s in c'.free <==> forall o :: IsLive(g, c', o) ==> ObjToSlab(o) != s
    ensures FreeListEmpty(g, c) ==> FreeListEmpty(g, FreeObject(g, c, obj))
  {
    var s, c' := ObjToSlab(obj), FreeObject(g, c, obj);
    FreeKeeps(g, c, obj);
    RemoveFacts(c.full, s);
    RemoveFacts(c.partial, s);
    RemoveFacts(c.free, s);
    RemoveAppended(c.full, s);
    RemoveAppended(c.partial, s);
    RemoveAppended(c.free, s);
    assert c'.Has(s);
    ChainCount(g, s, c'.chains[s]);
    NoneLive(g, c', s);
  }

  /** A slab has no live object exactly when all its objects are on its freelist. */
  lemma NoneLive(g: Geometry, c: Cache, s: int)
    requires Inv(g, c) && c.Has(s)
    ensures AllFree(g, c, s) <==> forall o :: IsLive(g, c, o) ==> ObjToSlab(o) != s
  {
    if !AllFree(g, c, s) {
      var o :| IsObject(g, s, o) && o !in c.chains[s];
      SlabOf(g, s, o);
      assert IsLive(g, c, o);
    }
  }

  /** The slab an object is taken from: the first on slabs_partial, else the first on slabs_free, else a
      new one. */
  function Source(c: Cache): int {
    if c.partial != [] then c.partial[0] else if c.free != [] then c.free[0] else c.next
  }

  /** An allocation takes the first object of that slab's freelist. The slab moves to slabs_full when that
      was its last one, and stays on its list otherwise, even on slabs_free; a new slab is on slabs_partial. */
  lemma AllocLists(g: Geometry, c: Cache, a: Attempt)
    requires Inv(g, c) && !(c.partial == [] && c.free == [] && a != NewSlab)
    ensures var s, c', o := Source(c), Alloc(g, c, a).0, Alloc(g, c, a).1;
            && o != 0 && ObjToSlab(o) == s && OthersStay(c, c', s) && s in c'.chains
            && [o] + c'.chains[s] == (if c.Has(s) && s in c.chains then c.chains[s] else Built(g, s, g.count))
            && (s in c'.full <==> c'.chains[s] == []) && (s in c'.full ==> c'.full[|c'.full| - 1] == s)
            && (s in c'.free <==> c'.chains[s] != [] && s in c.free)
            && (s in c'.partial <==> c'.chains[s] != [] && s !in c.free)
    ensures c.partial == [] && c.free == [] ==> Alloc(g, c, a).0.next == c.next + PAGE
    ensures c.partial != [] || c.free != [] ==> Alloc(g, c, a).0.next == c.next
  {
    var none := c.partial == [] && c.free == [];
    if none {
      AddSlabKeeps(g, c);
      BuiltFacts(g, c.next, g.count);
      RemoveAppended(c.partial, c.next);
      PopLists(g, AddSlab(g, c));
    } else {
      PopLists(g, c);
    }
  }

  /** An allocation that fails changes nothing but the next address, and that only when the frame was there
      and its mapping failed. */
  lemma AllocFails(g: Geometry, c: Cache, a: Attempt)
    requires Inv(g, c) && Alloc(g, c, a).1 == 0
    ensures var c' := Alloc(g, c, a).0;
            && c'.full == c.full && c'.partial == c.partial && c'.free == c.free && c'.chains == c.chains
            && c'.next == if a == NoMapping then c.next + PAGE else c.next
  {
    AllocKeeps(g, c, a);
  }

  lemma PopLists(g: Geometry, c: Cache)
    requires Inv(g, c) && (c.partial != [] || c.free != [])
    ensures var s, c', o := Source(c), AllocFrom(c).0, AllocFrom(c).1;
            && c.Has(s) && s in c.chains && s in c'.chains && [o] + c'.chains[s] == c.chains[s] && o != 0
            && ObjToSlab(o) == s && OthersStay(c, c', s) && c'.next == c.next
            && (s in c'.full <==> c'.chains[s] == []) && (s in c'.full ==> c'.full[|c'.full| - 1] == s)
            && (s in c'.free <==> c'.chains[s] != [] && s in c.free)
            && (s in c'.partial <==> c'.chains[s] != [] && s in c.partial)
  {
    var fromPartial := c.partial != [];
    var s := Source(c);
    PoppedKeeps(g, c, fromPartial);
    PoppedLive(g, c, fromPartial);
    RemoveFirst(if fromPartial then c.partial else c.free);
    WithoutFacts(if fromPartial then c.partial else c.free, 0);
    RemoveAppended(c.full, s);
    assert c.Has(s) && s !in c.full;
  }

  /** Allocating leaves a live object on slabs_free, for shrinking to drop, exactly when it has to take the
      object from there and the slab has more than one. */
  lemma AllocSpoils(g: Geometry, c: Cache, a: Attempt)
    requires Inv(g, c) && FreeListEmpty(g, c)
    ensures FreeListEmpty(g, Alloc(g, c, a).0) <==> !(c.partial == [] && c.free != [] && 1 < g.count)
  {
    var c' := Alloc(g, c, a).0;
    if c.partial == [] && c.free == [] && a != NewSlab {
      assert c'.free == [];
    } else {
      AllocLists(g, c, a);
      var s := Source(c);
      if c.partial == [] && c.free != [] {
        assert s in c.free && c.Has(s);
        assert |c'.chains[s]| == g.count - 1;
        if 1 < g.count {
          assert s in c'.free && |c'.chains[s]| != g.count;
        }
      } else {
        assert s !in c.free;
      }
    }
  }

  // ---------------------------------------------------------------- shrinking

  /** kmem_cache_shrink: every slab on the free list is given up. */
  function Shrink(c: Cache): Cache {
    c.(free := [])
  }

  /** The slabs on the free list hold no live object. */
  ghost predicate FreeListEmpty(g: Geometry, c: Cache) {
    forall s :: s in c.free && s in c.chains ==> |c.chains[s]| == g.count
  }

  /** Shrinking keeps every live object exactly when no slab on the free list has one. */
  lemma ShrinkExact(g: Geometry, c: Cache)
    requires Inv(g, c)
    ensures Inv(g, Shrink(c))
    ensures (forall o :: IsLive(g, c, o) ==> IsLive(g, Shrink(c), o)) <==> FreeListEmpty(g, c)
  {
    var c' := Shrink(c);
    if FreeListEmpty(g, c) {
      forall o | IsLive(g, c, o) ensures IsLive(g, c', o) {
        var s := ObjToSlab(o);
        if s in c.free {
          ChainCount(g, s, c.chains[s]);
        }
      }
    } else {
      var s :| s in c.free && s in c.chains && |c.chains[s]| != g.count;
      assert c.Has(s);
      ChainCount(g, s, c.chains[s]);
      var o :| IsObject(g, s, o) && o !in c.chains[s];
      SlabOf(g, s, o);
      assert IsLive(g, c, o) && !IsLive(g, c', o);
    }
  }

  function Empty(): Cache {
    Cache([], [], [], map[], SLAB_VIRT_START)
  }

  /** With two or more objects a slab, allocating, freeing and allocating again leaves the one live
      object on a slab of the free list, where shrinking drops it. */
  lemma ShrinkDropsLive(g: Geometry)
    requires GeometryOk(g) && 2 <= g.count
    ensures exists a, o, a' ::
      var c1 := Alloc(g, Empty(), a).0;
      var c2 := FreeObject(g, c1, o);
      var c3 := Alloc(g, c2, a').0;
      IsLive(g, c1, o) && Alloc(g, c2, a').1 == o && IsLive(g, c3, o) && !IsLive(g, Shrink(c3), o)
  {
    var v := SLAB_VIRT_START;
    BuiltFacts(g, v, g.count);
    var b := Built(g, v, g.count);
    var c0, o := AddSlab(g, Empty()), b[0];
    assert Empty().Has(0) == false && Inv(g, Empty());
    AddSlabKeeps(g, Empty());
    PoppedKeeps(g, c0, true);
    PoppedLive(g, c0, true);
    var c1 := Alloc(g, Empty(), NewSlab).0;
    assert c0.partial == [v] && c0.chains == map[v := b];
    assert c1 == Cache([], [v], [], map[v := b[1..]], v + PAGE);
    SlabOf(g, v, o);
    var c2 := FreeObject(g, c1, o);
    assert [o] + b[1..] == b;
    assert IndexIn([v], v) == 0 && Lists.Without([v], 0) == [];
    assert c2 == Cache([], [], [v], map[v := b], v + PAGE);
    FreeKeeps(g, c1, o);
    PoppedKeeps(g, c2, false);
    PoppedLive(g, c2, false);
    var c3 := Alloc(g, c2, NewSlab).0;
    assert Alloc(g, c2, NewSlab).1 == o;
    assert c3 == Cache([], [], [v], map[v := b[1..]], v + PAGE);
    assert IsLive(g, c3, o) && !IsLive(g, Shrink(c3), o);
  }

  // ---------------------------------------------------------------- whole runs

  datatype Op = DoAlloc(attempt: Attempt) | DoFree(obj: int) | DoShrink

  function Step(g: Geometry, c: Cache, op: Op): Cache
    requires 0 < g.align && 0 <= g.count
  {
    match op
    case DoAlloc(a) => Alloc(g, c, a).0
    case DoFree(o) => FreeObject(g, c, o)
    case DoShrink => Shrink(c)
  }

  /** The objects clients hold after a call. */
  function Held(g: Geometry, c: Cache, held: set<int>, op: Op): set<int>
    requires 0 < g.align && 0 <= g.count
  {
    match op
    case DoAlloc(a) => if Alloc(g, c, a).1 == 0 then held else held + {Alloc(g, c, a).1}
    case DoFree(o) => held - {o}
    case DoShrink => held
  }

  /** The call that takes objects away from their holders. */
  ghost predicate Breaks(g: Geometry, c: Cache, op: Op) {
    op.DoShrink? && !FreeListEmpty(g, c)
  }

  /** A run in which clients free what they hold, as long as nothing was taken away from them. */
  ghost predicate LegalRun(g: Geometry, c: Cache, held: set<int>, ops: seq<Op>)
    requires 0 < g.align && 0 <= g.count
    decreases ops
  {
    ops == [] ||
    ((ops[0].DoFree? ==> ops[0].obj in held)
     && (Breaks(g, c, ops[0]) || LegalRun(g, Step(g, c, ops[0]), Held(g, c, held, ops[0]), ops[1..])))
  }

  ghost predicate Unbroken(g: Geometry, c: Cache, ops: seq<Op>)
    requires 0 < g.align && 0 <= g.count
    decreases ops
  {
    ops == [] || (!Breaks(g, c, ops[0]) && Unbroken(g, Step(g, c, ops[0]), ops[1..]))
  }

  ghost function Run(g: Geometry, c: Cache, ops: seq<Op>): Cache
    requires 0 < g.align && 0 <= g.count
    decreases ops
  {
    if ops == [] then c else Run(g, Step(g, c, ops[0]), ops[1..])
  }

  ghost function HeldAfter(g: Geometry, c: Cache, held: set<int>, ops: seq<Op>): set<int>
    requires 0 < g.align && 0 <= g.count
    decreases ops
  {
    if ops == [] then held else HeldAfter(g, Step(g, c, ops[0]), Held(g, c, held, ops[0]), ops[1..])
  }

  ghost predicate LiveIs(g: Geometry, c: Cache, held: set<int>)
    requires 0 < g.align
  {
    forall o :: IsLive(g, c, o) <==> o in held
  }

  /** The live objects are those handed out and not yet given back, at every point of the run. */
  ghost predicate AlwaysLive(g: Geometry, c: Cache, held: set<int>, ops: seq<Op>)
    requires 0 < g.align && 0 <= g.count
    decreases ops
  {
    && LiveIs(g, c, held)
    && (ops == [] || AlwaysLive(g, Step(g, c, ops[0]), Held(g, c, held, ops[0]), ops[1..]))
  }

  /** One call keeps the invariant, and keeps live what is held exactly when it does not break. */
  lemma StepKeeps(g: Geometry, c: Cache, held: set<int>, op: Op)
    requires Inv(g, c) && LiveIs(g, c, held) && (op.DoFree? ==> op.obj in held)
    ensures Inv(g, Step(g, c, op))
    ensures LiveIs(g, Step(g, c, op), Held(g, c, held, op)) <==> !Breaks(g, c, op)
    ensures op.DoAlloc? ==> Alloc(g, c, op.attempt).1 !in held || Alloc(g, c, op.attempt).1 == 0
  {
    match op
    case DoAlloc(a) =>
      AllocKeeps(g, c, a);
    case DoFree(o) =>
      FreeKeeps(g, c, o);
    case DoShrink =>
      ShrinkExact(g, c);
      ShrinkOnlyLoses(g, c);
  }

  /** Shrinking makes nothing live. */
  lemma ShrinkOnlyLoses(g: Geometry, c: Cache)
    requires Inv(g, c)
    ensures forall o :: IsLive(g, Shrink(c), o) ==> IsLive(g, c, o)
  {
    forall o | IsLive(g, Shrink(c), o) ensures IsLive(g, c, o) {
      assert c.Has(ObjToSlab(o));
    }
  }

  /** Where every run of a cache begins: a layout that kmem_cache_create accepts, and no slab yet. */
  lemma FreshCache(size: nat, align: nat)
    requires size < TWO32 && align < TWO32 && CreateLayout(size, align).Created? && align <= PAGE
    ensures Inv(CreateLayout(size, align).g, Empty()) && LiveIs(CreateLayout(size, align).g, Empty(), {})
  {
    AcceptedLayout(size, align);
    assert forall s :: !Empty().Has(s);
  }

  /** In every run the live objects are exactly those handed out and not yet given back, at every point,
      if and only if no shrink meets a slab with live objects on the free list; and then the invariant
      holds at the end. */
  lemma {:induction false} EveryRun(g: Geometry, c: Cache, held: set<int>, ops: seq<Op>)
    requires Inv(g, c) && LiveIs(g, c, held) && LegalRun(g, c, held, ops)
    ensures AlwaysLive(g, c, held, ops) <==> Unbroken(g, c, ops)
    ensures Unbroken(g, c, ops) ==> Inv(g, Run(g, c, ops)) && LiveIs(g, Run(g, c, ops), HeldAfter(g, c, held, ops))
    decreases ops
  {
    if ops != [] {
      StepKeeps(g, c, held, ops[0]);
      if !Breaks(g, c, ops[0]) {
        EveryRun(g, Step(g, c, ops[0]), Held(g, c, held, ops[0]), ops[1..]);
      } else {
        NotAlways(g, Step(g, c, ops[0]), Held(g, c, held, ops[0]), ops[1..]);
      }
    }
  }

  lemma NotAlways(g: Geometry, c: Cache, held: set<int>, ops: seq<Op>)
    requires 0 < g.align && 0 <= g.count && !LiveIs(g, c, held)
    ensures !AlwaysLive(g, c, held, ops)
  {}

  /** An allocation at any point of such a run hands out an object nobody holds at that point. */
  lemma {:induction false} NeverTwice(g: Geometry, c: Cache, held: set<int>, ops: seq<Op>, k: nat)
    requires Inv(g, c) && LiveIs(g, c, held) && LegalRun(g, c, held, ops)
    requires k < |ops| && ops[k].DoAlloc? && Unbroken(g, c, ops[..k])
    ensures var at := Run(g, c, ops[..k]);
            var obj := Alloc(g, at, ops[k].attempt).1;
            obj == 0 || obj !in HeldAfter(g, c, held, ops[..k])
    decreases ops
  {
    StepKeeps(g, c, held, ops[0]);
    if k != 0 {
      assert ops[..k][0] == ops[0] && ops[..k][1..] == ops[1..][..k - 1];
      NeverTwice(g, Step(g, c, ops[0]), Held(g, c, held, ops[0]), ops[1..], k - 1);
    }
  }
}
