/** Slab geometry: the layout arithmetic of src/mm/slab.c. */
module SlabLayout {
  import opened Kernel

  /** sizeof(struct slab): cache, freelist, inuse and the two links. */
  const SLAB_HDR := 20
  const SLAB_MIN_ALIGN := 8
  const SLAB_VIRT_START := 0xE000_0000

  datatype Geometry = Geometry(size: int, align: int, count: int)

  predicate PowerOfTwo(n: int)
    decreases n
  {
    n == 1 || (0 < n && n % 2 == 0 && PowerOfTwo(n / 2))
  }

  /** What kmem_cache_create makes of a size and an alignment. */
  datatype Creation = Refused | DividesByZero | Created(g: Geometry)

  /** The layout arithmetic of kmem_cache_create, in 32 bits. */
  function CreateLayout(size: nat, align: nat): Creation
    requires size < TWO32 && align < TWO32
  {
    if size == 0 || align < SLAB_MIN_ALIGN || !PowerOfTwo(align) then Refused
    else
      var objectSize := Wrap32(AlignUp(size, align));
      var avail := Wrap32(PAGE - AlignUp(SLAB_HDR, align));
      if objectSize == 0 then DividesByZero
      else if avail / objectSize == 0 then Refused
      else Created(Geometry(objectSize, align, avail / objectSize))
  }

  /** Where new_slab puts object i of a slab at address virt. */
  function Object(g: Geometry, virt: int, i: int): int
    requires 0 < g.align
  {
    AlignUp(virt + SLAB_HDR, g.align) + i * g.size
  }

  /** obj_to_slab. */
  function ObjToSlab(obj: int): int {
    AlignDown(obj, PAGE)
  }

  /** Object i lies behind the slab header and inside the page. */
  predicate Inside(g: Geometry, virt: int, i: int)
    requires 0 < g.align
  {
    virt + SLAB_HDR <= Object(g, virt, i) && Object(g, virt, i) + g.size <= virt + PAGE
  }

  // ---------------------------------------------------------------- arithmetic

  lemma {:induction false} SmallPowers(n: int)
    requires PowerOfTwo(n) && n <= 4096
    ensures n == 1 || n == 2 || n == 4 || n == 8 || n == 16 || n == 32 || n == 64 || n == 128 || n == 256 || n == 512
            || n == 1024 || n == 2048 || n == 4096
  {
    if n != 1 {
      SmallPowers(n / 2);
    }
  }

  lemma {:induction false} LargePowers(n: int)
    requires PowerOfTwo(n) && n > 4096
    ensures n % PAGE == 0 && n >= 2 * PAGE
  {
    var h := n / 2;
    assert n == 2 * h;
    if h > 4096 {
      LargePowers(h);
      var k := h / PAGE;
      assert n == PAGE * (2 * k);
    } else {
      SmallPowers(h);
      assert h == 4096;
    }
  }

  lemma PowerDividesPage(align: int) returns (c: int)
    requires PowerOfTwo(align) && SLAB_MIN_ALIGN <= align <= PAGE
    ensures align * c == PAGE
  {
    SmallPowers(align);
    c := if align == 8 then 512 else if align == 16 then 256 else if align == 32 then 128 else if align == 64 then 64
         else if align == 128 then 32 else if align == 256 then 16 else if align == 512 then 8
         else if align == 1024 then 4 else if align == 2048 then 2 else 1;
  }

  lemma HeaderFits(align: int)
    requires PowerOfTwo(align) && SLAB_MIN_ALIGN <= align <= PAGE
    ensures SLAB_HDR <= AlignUp(SLAB_HDR, align) <= PAGE
  {
    if align == PAGE {
      assert AlignUp(SLAB_HDR, PAGE) == PAGE;
    } else {
      BelowPage(align);
      AlignedMultiple(SLAB_HDR, align);
    }
  }

  lemma BelowPage(align: int)
    requires PowerOfTwo(align) && align < PAGE
    ensures align <= 2048
  {
    SmallPowers(align);
  }

  /** The first object of a page-aligned slab is where the dummy computation at address 0 says. */
  lemma FirstObject(virt: int, align: int)
    requires PowerOfTwo(align) && SLAB_MIN_ALIGN <= align <= PAGE && virt % PAGE == 0
    ensures AlignUp(virt + SLAB_HDR, align) == virt + AlignUp(SLAB_HDR, align)
    ensures SLAB_HDR <= AlignUp(SLAB_HDR, align) <= PAGE && AlignUp(SLAB_HDR, align) % align == 0
    ensures AlignUp(virt + SLAB_HDR, align) % align == 0
  {
    HeaderFits(align);
    AlignedMultiple(SLAB_HDR, align);
    var c := PowerDividesPage(align);
    var q := virt / PAGE;
    calc {
      virt;
      PAGE * q;
      align * c * q;
      { MulAssoc(align, c, q); }
      align * (c * q);
    }
    AddMultiple(SLAB_HDR + align - 1, c * q, align);
    AddMultiple(AlignUp(SLAB_HDR, align), c * q, align);
  }

  lemma MulAssoc(a: int, b: int, c: int)
    ensures a * b * c == a * (b * c)
  {}

  lemma AddMultiple(x: int, k: int, m: int)
    requires 0 < m
    ensures (x + m * k) % m == x % m
  {
    var q, r := x / m, x % m;
    assert x + m * k == m * (q + k) + r;
    ModUnique(x + m * k, q + k, r, m);
  }

  lemma MulMonotone(a: int, b: int, c: int)
    requires 0 <= c && a <= b
    ensures a * c <= b * c
  {}

  lemma DivBound(a: int, b: int)
    requires 0 <= a && 0 < b
    ensures 0 <= a / b && (a / b) * b <= a
  {}

  lemma AlignedMultiple(a: int, align: int)
    requires 0 < align && 0 <= a
    ensures AlignUp(a, align) % align == 0 && a <= AlignUp(a, align) < a + align
  {
    var x := a + align - 1;
    assert x == align * (x / align) + x % align;
    assert AlignUp(a, align) == align * (x / align);
    ModUnique(align * (x / align), x / align, 0, align);
  }

  lemma ModUnique(x: int, q: int, r: int, m: int)
    requires 0 < m && x == m * q + r && 0 <= r < m
    ensures x % m == r
  {
    var q', r' := x / m, x % m;
    assert m * (q - q') == r' - r;
    if q < q' {
      MulMonotone(1, q' - q, m);
    } else if q' < q {
      MulMonotone(1, q - q', m);
    }
  }

  // ---------------------------------------------------------------- geometry

  /** A layout whose objects fit a page. */
  ghost predicate GeometryOk(g: Geometry) {
    && PowerOfTwo(g.align) && SLAB_MIN_ALIGN <= g.align <= PAGE
    && g.align <= g.size && g.size % g.align == 0 && 1 <= g.count
    && AlignUp(SLAB_HDR, g.align) + g.count * g.size <= PAGE
  }

  /** A power of two up to 2^32 divides 2^32; the quotient is a power of two as well. */
  lemma {:induction false} PowerDividesAll(n: int) returns (c: int)
    requires PowerOfTwo(n) && n <= TWO32
    ensures n * c == TWO32 && 0 < c && (n < TWO32 ==> c % 2 == 0) && PowerOfTwo(c)
  {
    if n == 1 {
      c := TWO32;
      WholeRange();
    } else {
      var h := n / 2;
      var d := PowerDividesAll(h);
      c := d / 2;
      assert n == 2 * h && d == 2 * c;
      assert n * c == h * d;
      if n < TWO32 {
        assert c != 1;
      }
    }
  }

  lemma WholeRange()
    ensures PowerOfTwo(TWO32)
  {
    assert PowerOfTwo(16);
    PowerTimes(16, 16);
    PowerTimes(256, 256);
    PowerTimes(0x1_0000, 0x1_0000);
  }

  lemma {:induction false} PowerTimes(a: int, b: int)
    requires PowerOfTwo(a) && PowerOfTwo(b)
    ensures PowerOfTwo(a * b)
    decreases a
  {
    if a != 1 {
      var h := a / 2;
      PowerTimes(h, b);
      var p := h * b;
      assert a * b == 2 * p;
      PowerDouble(p);
    }
  }

  lemma PowerDouble(p: int)
    requires PowerOfTwo(p)
    ensures PowerOfTwo(2 * p)
  {
    assert 2 * p / 2 == p;
  }

  /** Rounding a size up wraps to 0 exactly when it does not fit 32 bits, and then the code divides by zero. */
  lemma RoundingWraps(size: nat, align: nat)
    requires 0 < size < TWO32 && align < TWO32 && PowerOfTwo(align)
    ensures Wrap32(AlignUp(size, align)) == if TWO32 < size + align then 0 else AlignUp(size, align)
    ensures 0 < AlignUp(size, align) <= TWO32
  {
    AlignedMultiple(size, align);
    if TWO32 < size + align {
      var c := PowerDividesAll(align);
      var x := size + align - 1;
      ModUnique(x, c, x - TWO32, align);
    }
  }

  /** When kmem_cache_create divides by zero. */
  lemma CreateFaults(size: nat, align: nat)
    requires size < TWO32 && align < TWO32
    ensures CreateLayout(size, align) == DividesByZero <==>
            size != 0 && SLAB_MIN_ALIGN <= align && PowerOfTwo(align) && TWO32 < size + align
  {
    if size != 0 && SLAB_MIN_ALIGN <= align && PowerOfTwo(align) {
      RoundingWraps(size, align);
    }
  }

  /** The largest 32-bit size, with the smallest alignment, is such a request. */
  lemma LargestSizeFaults()
    ensures CreateLayout(0xFFFF_FFFF, 8) == DividesByZero
  {
    assert PowerOfTwo(4);
    CreateFaults(0xFFFF_FFFF, 8);
  }

  lemma AcceptedLayout(size: nat, align: nat)
    requires size < TWO32 && align < TWO32
    requires CreateLayout(size, align).Created? && align <= PAGE
    ensures GeometryOk(CreateLayout(size, align).g) && size <= CreateLayout(size, align).g.size
  {
    var g := CreateLayout(size, align).g;
    RoundingWraps(size, align);
    AlignedMultiple(size, align);
    HeaderFits(align);
    var avail := PAGE - AlignUp(SLAB_HDR, align);
    DivBound(avail, g.size);
    SizeAtLeastAlign(g.size, align);
  }

  /** The bytes kmem_cache_create takes to be left behind the header of a slab. */
  function RoomFor(align: nat): int
    requires 0 < align
  {
    if align <= PAGE then PAGE - AlignUp(SLAB_HDR, align) else TWO32 + PAGE - align
  }

  lemma RoomIs(align: nat)
    requires PowerOfTwo(align) && SLAB_MIN_ALIGN <= align < TWO32
    ensures RoomFor(align) == Wrap32(PAGE - AlignUp(SLAB_HDR, align)) >= 0
  {
    AlignedMultiple(SLAB_HDR, align);
    if align <= PAGE {
      HeaderFits(align);
    } else {
      LargePowers(align);
      QuotientOne(SLAB_HDR + align - 1, align);
      assert AlignUp(SLAB_HDR, align) == align;
    }
  }

  lemma QuotientOne(x: int, m: int)
    requires 0 < m <= x < 2 * m
    ensures x % m == x - m
  {
    ModUnique(x, 1, x - m, m);
  }

  /** What kmem_cache_create decides: objects of the least multiple of the alignment that holds the size, and
      as many of them as there is room for; refused exactly for bad arguments or without room for one. */
  lemma CreateExact(size: nat, align: nat)
    requires size < TWO32 && align < TWO32
    ensures var c := CreateLayout(size, align);
            c.Created? ==>
              && c.g.align == align && c.g.size % align == 0 && size <= c.g.size < size + align && 0 < align
              && 1 <= c.g.count && c.g.count * c.g.size <= RoomFor(align) < (c.g.count + 1) * c.g.size
    ensures CreateLayout(size, align) == Refused <==>
              || size == 0 || align < SLAB_MIN_ALIGN || !PowerOfTwo(align)
              || (size + align <= TWO32 && RoomFor(align) < AlignUp(size, align))
  {
    if size != 0 && SLAB_MIN_ALIGN <= align && PowerOfTwo(align) {
      RoundingWraps(size, align);
      AlignedMultiple(size, align);
      RoomIs(align);
      if size + align <= TWO32 {
        QuotientFacts(RoomFor(align), AlignUp(size, align));
      }
    }
  }

  lemma QuotientFacts(a: int, b: int)
    requires 0 <= a && 0 < b
    ensures 0 <= a / b && a / b * b <= a < (a / b + 1) * b && (a / b == 0 <==> a < b)
  {
    assert a == b * (a / b) + a % b;
    if a < b {
      assert a / b == 0;
    }
  }

  lemma SizeAtLeastAlign(size: int, align: int)
    requires 0 < align && 0 < size && size % align == 0
    ensures align <= size
  {
    if size < align {
      ModUnique(size, 0, size, align);
    }
  }

  /** Every object is aligned, behind the header, inside the page, and leads back to its slab. */
  lemma ObjectFacts(g: Geometry, virt: int, i: int)
    requires GeometryOk(g) && virt % PAGE == 0 && 0 <= i < g.count
    ensures Inside(g, virt, i) && Object(g, virt, i) % g.align == 0 && ObjToSlab(Object(g, virt, i)) == virt
  {
    FirstObject(virt, g.align);
    MulMonotone(i + 1, g.count, g.size);
    MulMonotone(0, i, g.size);
    assert (i + 1) * g.size == i * g.size + g.size;
    MultipleAligned(AlignUp(virt + SLAB_HDR, g.align), i, g.size, g.align);
    PageOfAddress(Object(g, virt, i), virt);
  }

  lemma MultipleAligned(base: int, i: int, size: int, align: int)
    requires 0 < align && base % align == 0 && size % align == 0
    ensures (base + i * size) % align == 0
  {
    var k := size / align;
    assert i * size == align * (i * k) by {
      MulAssoc(i, align, k);
      MulAssoc(align, i, k);
    }
    AddMultiple(base, i * k, align);
  }

  lemma PageOfAddress(a: int, virt: int)
    requires virt % PAGE == 0 && virt <= a < virt + PAGE
    ensures ObjToSlab(a) == virt
  {}

  /** Two objects of a slab do not overlap. */
  lemma ObjectsDisjoint(g: Geometry, virt: int, i: int, j: int)
    requires 0 < g.align && 0 < g.size && i < j
    ensures Object(g, virt, i) + g.size <= Object(g, virt, j)
  {
    MulMonotone(i + 1, j, g.size);
    assert (i + 1) * g.size == i * g.size + g.size;
  }

  /** For a layout kmem_cache_create accepts, all objects lie inside their page exactly when the
      alignment is at most a page: beyond that the 32-bit subtraction of the header wraps. */
  lemma LayoutExact(size: nat, align: nat, virt: int)
    requires size < TWO32 && align < TWO32
    requires CreateLayout(size, align).Created? && virt % PAGE == 0
    ensures var g := CreateLayout(size, align).g;
            (forall i :: 0 <= i < g.count ==> Inside(g, virt, i)) <==> align <= PAGE
  {
    var g := CreateLayout(size, align).g;
    if align <= PAGE {
      AcceptedLayout(size, align);
      forall i | 0 <= i < g.count ensures Inside(g, virt, i) {
        ObjectFacts(g, virt, i);
      }
    } else {
      AlignedMultiple(size, align);
      PositiveCount(size, align);
      TooFarOut(g, virt);
      assert !Inside(g, virt, 0);
    }
  }

  lemma PositiveCount(size: nat, align: nat)
    requires size < TWO32 && align < TWO32
    requires CreateLayout(size, align).Created?
    ensures var g := CreateLayout(size, align).g; 0 < g.size && 0 < g.count && g.align == align
  {
    RoundingWraps(size, align);
    var g := CreateLayout(size, align).g;
    DivBound(Wrap32(PAGE - AlignUp(SLAB_HDR, align)), g.size);
  }

  /** No multiple of a whole number of pages lies strictly inside a page. */
  lemma TooFarOut(g: Geometry, virt: int)
    requires PowerOfTwo(g.align) && g.align > PAGE && virt % PAGE == 0 && 0 < g.size
    ensures !Inside(g, virt, 0)
  {
    LargePowers(g.align);
    var x := virt + SLAB_HDR + g.align - 1;
    var q := x / g.align;
    assert AlignUp(virt + SLAB_HDR, g.align) == g.align * q;
    var p := g.align / PAGE;
    assert g.align * q == PAGE * (p * q) by {
      MulAssoc(PAGE, p, q);
    }
    ModUnique(g.align * q, p * q, 0, PAGE);
  }

  lemma {:induction false} TwoPages()
    ensures PowerOfTwo(8192)
  {
    assert PowerOfTwo(4);
    assert PowerOfTwo(32);
    assert PowerOfTwo(256);
    assert PowerOfTwo(2048);
  }

  /** An alignment of two pages is accepted, and puts the object outside its page. */
  lemma OversizedAlignAccepted()
    ensures exists size: nat, align: nat ::
              size < TWO32 && align < TWO32 && CreateLayout(size, align).Created? && align > PAGE
  {
    TwoPages();
    var size, align := 16, 8192;
    AlignedMultiple(size, align);
    AlignedMultiple(SLAB_HDR, align);
    var objectSize, avail := AlignUp(size, align), Wrap32(PAGE - AlignUp(SLAB_HDR, align));
    assert objectSize == align && avail == TWO32 - PAGE;
    AtLeastOne(avail, objectSize);
    assert CreateLayout(size, align).Created?;
  }

  lemma AtLeastOne(a: int, b: int)
    requires 0 < b <= a
    ensures 1 <= a / b
  {}
}
