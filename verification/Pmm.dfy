/** The physical page allocator of src/mm/bitmap.c: one bit per page, set when the page is taken. */
module Pmm {
  import opened Kernel

  // ---------------------------------------------------------------- bits

  type Byte = x: int | 0 <= x < 256

  /** Bit k of x: `x & (1 << k)` is not zero. */
  predicate Bit(x: nat, k: nat) {
    if k == 0 then x % 2 == 1 else Bit(x / 2, k - 1)
  }

  /** x with bit k given the value v: `x | (1 << k)` or `x & ~(1 << k)`. */
  function WithBit(x: nat, k: nat, v: bool): nat {
    if k == 0 then x - x % 2 + (if v then 1 else 0) else 2 * WithBit(x / 2, k - 1, v) + x % 2
  }

  lemma {:induction false} BitAfterWrite(x: nat, k: nat, v: bool, j: nat)
    ensures Bit(WithBit(x, k, v), j) <==> if j == k then v else Bit(x, j)
  {
    if k != 0 && j != 0 {
      BitAfterWrite(x / 2, k - 1, v, j - 1);
    }
  }

  function Pow2(n: nat): (r: nat)
    ensures 1 <= r
  {
    if n == 0 then 1 else 2 * Pow2(n - 1)
  }

  lemma {:induction false} WithBitBound(x: nat, k: nat, v: bool, n: nat)
    requires x < Pow2(n) && k < n
    ensures WithBit(x, k, v) < Pow2(n)
  {
    var half := Pow2(n - 1);
    assert Pow2(n) == 2 * half;
    if k != 0 {
      WithBitBound(x / 2, k - 1, v, n - 1);
      var w := WithBit(x / 2, k - 1, v);
      assert w < half;
    }
  }

  lemma {:induction false} OnesBits(n: nat, k: nat)
    requires k < n
    ensures Bit(Pow2(n) - 1, k)
  {
    var ones := Pow2(n - 1) - 1;
    assert Pow2(n) - 1 == 2 * ones + 1;
    assert (2 * ones + 1) / 2 == ones && (2 * ones + 1) % 2 == 1;
    if k != 0 {
      OnesBits(n - 1, k - 1);
    }
  }

  lemma {:induction false} BitsOnes(x: nat, n: nat)
    requires x < Pow2(n)
    requires forall k: nat :: k < n ==> Bit(x, k)
    ensures x == Pow2(n) - 1
  {
    if n != 0 {
      assert Pow2(n) == 2 * Pow2(n - 1);
      assert Bit(x, 0);
      forall k: nat | k < n - 1 ensures Bit(x / 2, k) {
        assert Bit(x, k + 1);
      }
      BitsOnes(x / 2, n - 1);
    }
  }

  lemma FullByte(x: Byte)
    ensures x == 0xFF ==> forall k: nat :: k < 8 ==> Bit(x, k)
    ensures (forall k: nat :: k < 8 ==> Bit(x, k)) ==> x == 0xFF
  {
    PowByte();
    forall k: nat | k < 8 && x == Pow2(8) - 1 ensures Bit(x, k) {
      OnesBits(8, k);
    }
    if forall k: nat :: k < 8 ==> Bit(x, k) {
      BitsOnes(x, 8);
    }
  }

  lemma PowByte()
    ensures Pow2(8) == 256
  {
    assert Pow2(4) == 16;
  }

  /** x with bit k written, as a byte. */
  function WriteBit(x: Byte, k: nat, v: bool): Byte
    requires k < 8
  {
    PowByte();
    WithBitBound(x, k, v, 8);
    WithBit(x, k, v)
  }

  /** bitmap_test_bit: a bit beyond the bitmap reads as clear. */
  predicate TestBit(b: seq<Byte>, bit: nat) {
    bit / 8 < |b| && Bit(b[bit / 8], bit % 8)
  }

  /** bitmap_set_bit and bitmap_clear_bit on the bytes: no effect beyond the bitmap. */
  function PutBit(b: seq<Byte>, bit: nat, v: bool): seq<Byte> {
    if bit / 8 < |b| then b[bit / 8 := WriteBit(b[bit / 8], bit % 8, v)] else b
  }

  // ---------------------------------------------------------------- the abstract bitmap

  /** u is the bitmap as one boolean per page: true means taken. The trigger keeps a proof
      that only speaks about u from looking at the bytes. */
  ghost predicate Linked(b: seq<Byte>, u: seq<bool>) {
    |u| == 8 * |b| && forall i {:trigger TestBit(b, i)} :: 0 <= i < |u| ==> u[i] == TestBit(b, i)
  }

  lemma TestAfterPut(b: seq<Byte>, bit: nat, v: bool, j: nat)
    requires bit < 8 * |b|
    ensures TestBit(PutBit(b, bit, v), j) <==> if j == bit then v else TestBit(b, j)
  {
    if j / 8 == bit / 8 {
      BitAfterWrite(b[bit / 8], bit % 8, v, j % 8);
    }
  }

  /** Writing one bit changes one page of the abstract bitmap. */
  lemma PutBitLinked(b: seq<Byte>, u: seq<bool>, bit: nat, v: bool)
    requires Linked(b, u) && bit < |u|
    ensures Linked(PutBit(b, bit, v), u[bit := v])
  {
    forall j | 0 <= j < |u|
      ensures u[bit := v][j] == TestBit(PutBit(b, bit, v), j)
    {
      assert u[j] == TestBit(b, j);
      TestAfterPut(b, bit, v, j);
    }
  }

  /** A byte is 0xFF exactly when its eight pages are taken. */
  lemma ByteView(b: seq<Byte>, u: seq<bool>, byte: nat)
    requires Linked(b, u) && byte < |b|
    ensures forall k: nat :: k < 8 ==> (u[8 * byte + k] <==> Bit(b[byte], k))
    ensures b[byte] == 0xFF ==> forall j :: 8 * byte <= j < 8 * byte + 8 ==> u[j]
    ensures b[byte] != 0xFF ==> exists k: nat :: k < 8 && !Bit(b[byte], k)
  {
    FullByte(b[byte]);
    forall k: nat | k < 8 ensures u[8 * byte + k] <==> Bit(b[byte], k) {
      assert u[8 * byte + k] == TestBit(b, 8 * byte + k);
    }
    if b[byte] == 0xFF {
      forall j | 8 * byte <= j < 8 * byte + 8 ensures u[j] {
        assert Bit(b[byte], j - 8 * byte);
      }
    }
  }

  /** The pages that can be handed out. */
  ghost function FreeSet(u: seq<bool>): (r: set<int>)
    ensures forall i {:trigger i in r} :: i in r <==> 0 <= i < |u| && !u[i]
  {
    set i | 0 <= i < |u| && !u[i]
  }

  /** The managed pages that are taken. */
  ghost function UsedSet(u: seq<bool>, total: nat): (r: set<int>)
    requires total <= |u|
    ensures forall i {:trigger i in r} :: i in r <==> 0 <= i < total && u[i]
  {
    set i | 0 <= i < total && u[i]
  }

  /** Counters f and n agree with the bits below `total`, and every bit from `total` on is set. */
  ghost predicate CountedBits(u: seq<bool>, total: nat, f: int, n: int) {
    && total <= |u| && total <= 0x10_0000
    && (forall i :: total <= i < |u| ==> u[i])
    && f == |FreeSet(u)|
    && n == |UsedSet(u, total)|
  }

  ghost predicate ClearRun(u: seq<bool>, start: int, count: int) {
    0 <= start && start + count <= |u| && forall i :: start <= i < start + count ==> !u[i]
  }

  ghost predicate LowestRun(u: seq<bool>, start: int, count: int) {
    ClearRun(u, start, count) && forall s :: ClearRun(u, s, count) ==> start <= s
  }

  const NOT_FOUND := 0xFFFF_FFFF

  // ---------------------------------------------------------------- boot information

  datatype MemEntry = MemEntry(addr: nat, len: nat, kind: nat)
  datatype BootModule = BootModule(start: nat, end: nat)

  /** What pmm_init reads from the Multiboot information structure. `mods` is the module
      array; `kernelEnd` is the linker's _kernel_end. */
  datatype BootInfo = BootInfo(
    hasMemMap: bool, hasMods: bool, entries: seq<MemEntry>, mods: seq<BootModule>,
    infoAddr: nat, mmapAddr: nat, mmapLength: nat, modsAddr: nat, kernelEnd: nat)

  const AVAILABLE := 1
  const ONE_MIB := 0x10_0000
  const MULTIBOOT_INFO_SIZE := 118
  const MODULE_SIZE := 16
  /** sizeof(multiboot_memory_map_t). */
  const MAP_ENTRY_SIZE := 24

  /** Page p and the byte range [start, start + len) share a byte. */
  predicate Touches(start: int, len: int, p: int) {
    0 < len && p * PAGE < start + len && start < (p + 1) * PAGE
  }

  predicate Usable(e: MemEntry) {
    e.kind == AVAILABLE && ONE_MIB <= e.addr
  }

  predicate WhollyInside(e: MemEntry, p: int) {
    e.addr <= p * PAGE && (p + 1) * PAGE <= e.addr + e.len
  }

  ghost predicate InUsable(es: seq<MemEntry>, p: int) {
    exists k :: 0 <= k < |es| && Usable(es[k]) && WhollyInside(es[k], p)
  }

  function ModuleLength(m: BootModule): int {
    Wrap32(m.end - m.start)
  }

  ghost predicate InModule(ms: seq<BootModule>, p: int) {
    exists k :: 0 <= k < |ms| && Touches(ms[k].start, ModuleLength(ms[k]), p)
  }

  /** The end of the highest available entry, which fixes how many pages are managed. */
  function MaxAddr(es: seq<MemEntry>): (m: nat)
    ensures forall k :: 0 <= k < |es| && es[k].kind == AVAILABLE ==> es[k].addr + es[k].len <= m
    ensures m == 0 || exists k :: 0 <= k < |es| && es[k].kind == AVAILABLE && es[k].addr + es[k].len == m
  {
    if es == [] then 0 else
    var last := es[|es| - 1];
    var m := MaxAddr(es[..|es| - 1]);
    if last.kind == AVAILABLE && last.addr + last.len > m then last.addr + last.len else m
  }

  function BitmapAddr(info: BootInfo): int {
    AlignUp(info.kernelEnd, PAGE)
  }

  function BitmapSize(total: nat): int {
    AlignUp((total + 7) / 8, PAGE)
  }

  /** Which pages pmm_init leaves free. */
  ghost predicate FreeAtBoot(info: BootInfo, p: int) {
    var total := MaxAddr(info.entries) / PAGE;
    && InUsable(info.entries, p)
    && !Touches(BitmapAddr(info), BitmapSize(total), p)
    && !Touches(info.infoAddr, MULTIBOOT_INFO_SIZE, p)
    && !Touches(info.mmapAddr, info.mmapLength, p)
    && !(info.hasMods && InModule(info.mods, p))
    && !Touches(ONE_MIB, info.kernelEnd - ONE_MIB, p)
  }

  /** The bytes that the memset of the bitmap overwrites do not meet [start, start + len). */
  predicate ClearOfBitmap(info: BootInfo, start: int, len: int) {
    var addr := BitmapAddr(info);
    len <= 0 || start + len <= addr || addr + BitmapSize(MaxAddr(info.entries) / PAGE) <= start
  }

  /** What pmm_init reads again after that memset is still there. */
  predicate StructuresClear(info: BootInfo) {
    ClearOfBitmap(info, info.infoAddr, MULTIBOOT_INFO_SIZE) && ModulesClear(info)
  }

  predicate ModulesClear(info: BootInfo) {
    info.hasMods ==> ClearOfBitmap(info, info.modsAddr, MODULE_SIZE * |info.mods|)
  }

  predicate MapClear(info: BootInfo) {
    ClearOfBitmap(info, info.mmapAddr, info.mmapLength)
  }

  /** The memset has overwritten the whole memory map, up to the last byte that reading an entry at
      any place in it can reach. */
  predicate MapOverwritten(info: BootInfo) {
    var addr := BitmapAddr(info);
    && 0 < info.mmapLength && addr <= info.mmapAddr
    && info.mmapAddr + info.mmapLength + MAP_ENTRY_SIZE <= addr + BitmapSize(MaxAddr(info.entries) / PAGE)
  }

  /** The map describes at most 4 GiB, the kernel is loaded at 1 MiB and the bitmap behind it fits. */
  ghost predicate BootInfoOk(info: BootInfo) {
    && MaxAddr(info.entries) <= TWO32
    && ONE_MIB <= info.kernelEnd
    && BitmapAddr(info) + BitmapSize(MaxAddr(info.entries) / PAGE) < TWO32
    && info.infoAddr < TWO32 && info.mmapAddr < TWO32 && info.mmapLength < TWO32
  }

  /** The page numbers behind the predicates above, as the loops of pmm_init visit them. */
  ghost function TouchedPages(start: int, len: int): set<int> {
    if len <= 0 then {} else Range(start / PAGE, (start + len + PAGE - 1) / PAGE)
  }

  ghost function EntryPages(e: MemEntry): set<int> {
    Range(AlignUp(e.addr, PAGE) / PAGE, (e.addr + e.len) / PAGE)
  }

  ghost function UsablePages(es: seq<MemEntry>): set<int> {
    if es == [] then {} else
    var last := es[|es| - 1];
    UsablePages(es[..|es| - 1]) + if Usable(last) then EntryPages(last) else {}
  }

  ghost function ModulePages(ms: seq<BootModule>): set<int> {
    if ms == [] then {} else
    var last := ms[|ms| - 1];
    ModulePages(ms[..|ms| - 1]) + TouchedPages(last.start, ModuleLength(last))
  }

  // ---------------------------------------------------------------- the allocator

  class PageAllocator {
    var bits: array<Byte>
    /** The address of the bitmap. */
    var bitsAt: nat
    ghost var taken: seq<bool>
    var total: nat
    var freePages: nat
    var usedPages: nat

    constructor ()
      ensures fresh(bits)
      ensures bits.Length == 0 && total == 0 && Valid()
    {
      bits := new Byte[0];
      bitsAt, total, freePages, usedPages := 0, 0, 0, 0;
      taken := [];
      new;
      assert FreeSet(taken) == {} && UsedSet(taken, 0) == {};
    }

    /** The counters agree with the bits, and every bit past the managed pages is set. */
    ghost predicate Counted()
      reads this, bits
    {
      BitsSeal().Intact?
    }

    ghost function BitsSeal(): Seal
      reads this, bits
    {
      if forall k {:trigger Open(TheBits, k)} :: Open(TheBits, k) ==> Agree() then Intact else Broken
    }

    ghost predicate Agree()
      reads this, bits
    {
      bits.Length <= 0x2_0000 && Linked(bits[..], taken) && CountedBits(taken, total, freePages, usedPages)
    }

    /** The allocator invariant: counters agree, and page 0 is never free. */
    ghost predicate Valid()
      reads this, bits
    {
      FramesSeal().Intact?
    }

    ghost function FramesSeal(): Seal
      reads this, bits
    {
      if forall k {:trigger Open(TheFrames, k)} :: Open(TheFrames, k) ==> Counted() && 0 !in FreeSet(taken)
      then Intact else Broken
    }

    lemma FreeIsBelow()
      requires Valid()
      ensures total <= 0x10_0000 && forall p :: p in FreeSet(taken) ==> 0 < p < total
    {
      assert Open(TheBits, 0) && Open(TheFrames, 0);
    }

    lemma BitForEveryPage()
      requires Valid()
      ensures total <= 8 * bits.Length
    {
      assert Open(TheBits, 0) && Open(TheFrames, 0);
    }

    lemma FreeIsManaged()
      requires Counted()
      ensures forall p :: p in FreeSet(taken) ==> 0 <= p < total
    {
      assert Open(TheBits, 0);
    }

    /** bitmap_find_free_bit: whole bytes of 0xFF are skipped. */
    method FindFreeBit() returns (r: int)
      requires Counted()
      ensures r == NOT_FOUND <==> FreeSet(taken) == {}
      ensures r != NOT_FOUND ==> r in FreeSet(taken) && forall j :: j in FreeSet(taken) ==> r <= j
    {
      assert Open(TheBits, 0);
      for byte := 0 to bits.Length
        invariant forall j :: 0 <= j < 8 * byte ==> taken[j]
      {
        ByteView(bits[..], taken, byte);
        if bits[byte] != 0xFF {
          for bit := 0 to 8
            invariant forall j :: 0 <= j < 8 * byte + bit ==> taken[j]
          {
            if !Bit(bits[byte], bit) {
              assert 8 * byte + bit in FreeSet(taken);
              return byte * 8 + bit;
            }
          }
        }
      }
      r := NOT_FOUND;
    }

    /** bitmap_find_free_bits: the lowest run of `count` clear bits. */
    method FindFreeBits(count: nat) returns (r: int)
      requires Counted()
      ensures r == NOT_FOUND <==> count == 0 || forall s :: !ClearRun(taken, s, count)
      ensures r != NOT_FOUND ==> LowestRun(taken, r, count)
    {
      if count == 0 {
        return NOT_FOUND;
      }
      assert Open(TheBits, 0);
      ghost var u := taken;
      var found := 0;
      for byte := 0 to bits.Length
        invariant Scanned(u, 8 * byte, found, count)
      {
        ByteView(bits[..], taken, byte);
        if bits[byte] == 0xFF {
          SkipByte(u, 8 * byte, found, count);
          found := 0;
          continue;
        }
        found, r := ScanByte(byte, found, count);
        if r != NOT_FOUND {
          return;
        }
      }
      r := NOT_FOUND;
    }

    /** The inner loop of bitmap_find_free_bits: the eight bits of one byte. */
    method ScanByte(byte: nat, found0: nat, count: nat) returns (found: nat, r: int)
      requires Counted() && byte < bits.Length
      requires Scanned(taken, 8 * byte, found0, count)
      ensures r == NOT_FOUND ==> Scanned(taken, 8 * byte + 8, found, count)
      ensures r != NOT_FOUND ==> LowestRun(taken, r, count)
    {
      assert Open(TheBits, 0);
      ghost var u := taken;
      found := found0;
      for bit := 0 to 8
        invariant Scanned(u, 8 * byte + bit, found, count)
      {
        var idx := byte * 8 + bit;
        ScanBit(u, idx, found, count);
        var isSet := TestBitAt(idx);
        if isSet {
          found := 0;
          continue;
        }
        found := found + 1;
        if found == count {
          r := byte * 8 + bit + 1 - count;
          return;
        }
      }
      r := NOT_FOUND;
    }

    /** bitmap_test_bit. */
    method TestBitAt(bit: nat) returns (r: bool)
      ensures r == TestBit(bits[..], bit)
    {
      if bit / 8 >= bits.Length {
        return false;
      }
      r := Bit(bits[bit / 8], bit % 8);
    }

    /** bitmap_set_bit. */
    method SetBitAt(bit: nat)
      modifies bits
      ensures bits[..] == PutBit(old(bits[..]), bit, true)
    {
      if bit / 8 >= bits.Length {
        return;
      }
      bits[bit / 8] := WriteBit(bits[bit / 8], bit % 8, true);
    }

    /** Set one clear bit; the counters f and n are what they should be before. */
    method Take(bit: nat, ghost f: int, ghost n: int)
      requires Linked(bits[..], taken) && CountedBits(taken, total, f, n) && bit in FreeSet(taken)
      modifies this`taken, bits
      ensures Linked(bits[..], taken) && CountedBits(taken, total, f - 1, n + 1)
      ensures FreeSet(taken) == old(FreeSet(taken)) - {bit} && 0 < f
    {
      TakeOne(taken, total, f, n, bit);
      PutBitLinked(bits[..], taken, bit, true);
      SetBitAt(bit);
      taken := taken[bit := true];
    }

    /** bitmap_clear_bit. */
    method ClearBitAt(bit: nat)
      modifies bits
      ensures bits[..] == PutBit(old(bits[..]), bit, false)
    {
      if bit / 8 >= bits.Length {
        return;
      }
      bits[bit / 8] := WriteBit(bits[bit / 8], bit % 8, false);
    }

    /** mark_region_allocated: take every managed page that the byte range touches. */
    method MarkRegionAllocated(start: nat, len: nat)
      requires Counted()
      modifies this`freePages, this`usedPages, this`taken, bits
      ensures Counted()
      ensures FreeSet(taken) == old(FreeSet(taken)) - TouchedPages(start, len)
    {
      if len == 0 {
        assert FreeSet(taken) - {} == FreeSet(taken);
        return;
      }
      FreeIsManaged();
      var startPage := start / PAGE;
      var endPage := (start + len + PAGE - 1) / PAGE;
      var page := startPage;
      ghost var free := FreeSet(taken);
      NoPages(free, startPage);
      while page < endPage && page < total
        invariant startPage <= page <= endPage
        invariant Counted()
        invariant FreeSet(taken) == free - Range(startPage, page)
      {
        RangeTaken(free, startPage, page);
        Reserve(page);
        page := page + 1;
      }
      AllPassed(free, startPage, page, endPage, total);
    }

    /** The body of that loop: set a clear bit and move the counters. */
    method Reserve(bit: nat)
      requires Counted() && bit < total
      modifies this`freePages, this`usedPages, this`taken, bits
      ensures Counted()
      ensures FreeSet(taken) == old(FreeSet(taken)) - {bit}
    {
      assert Open(TheBits, 0);
      var isSet := TestBitAt(bit);
      if !isSet {
        Take(bit, freePages, usedPages);
        usedPages := usedPages + 1;
        if freePages > 0 {
          freePages := freePages - 1;
        }
      }
    }

    /** The inner loop of pmm_init: free the pages of one available entry, the bitmap's excepted. */
    method FreeEntry(e: MemEntry, bitmapAddr: nat, size: nat)
      requires Counted() && (e.addr + e.len) / PAGE <= total
      requires bitmapAddr % PAGE == 0 && size % PAGE == 0
      modifies this`freePages, this`usedPages, this`taken, bits
      ensures Counted()
      ensures FreeSet(taken) == old(FreeSet(taken)) + (EntryPages(e) - TouchedPages(bitmapAddr, size))
    {
      EntrySpan(e);
      EntryStepIs(FreeSet(taken), AlignUp(e.addr, PAGE) / PAGE, (e.addr + e.len) / PAGE,
                  TouchedPages(bitmapAddr, size));
      FreeSpan(AlignUp(e.addr, PAGE) / PAGE, (e.addr + e.len) / PAGE, bitmapAddr, size);
    }

    method FreeSpan(startPage: nat, endPage: nat, bitmapAddr: nat, size: nat)
      requires Counted() && endPage <= total
      requires bitmapAddr % PAGE == 0 && size % PAGE == 0
      modifies this`freePages, this`usedPages, this`taken, bits
      ensures Counted()
      ensures FreeSet(taken) == EntryStep(old(FreeSet(taken)), startPage, endPage, TouchedPages(bitmapAddr, size))
    {
      ghost var bitmap, free := TouchedPages(bitmapAddr, size), FreeSet(taken);
      var page := startPage;
      while page < endPage
        invariant startPage <= page && (page <= endPage || page == startPage)
        invariant Counted()
        invariant FreeSet(taken) == EntryStep(free, startPage, page, bitmap)
      {
        FreeUnlessBitmap(page, bitmapAddr, size);
        page := page + 1;
      }
    }

    /** The body of that loop. */
    method FreeUnlessBitmap(page: nat, bitmapAddr: nat, size: nat)
      requires Counted() && page < total
      requires bitmapAddr % PAGE == 0 && size % PAGE == 0
      modifies this`freePages, this`usedPages, this`taken, bits
      ensures Counted()
      ensures FreeSet(taken) == PageStep(old(FreeSet(taken)), page, TouchedPages(bitmapAddr, size))
    {
      var pageAddr := page * PAGE;
      BitmapPage(bitmapAddr, size, page);
      if !(bitmapAddr <= pageAddr < bitmapAddr + size) {
        Release(page);
      }
    }

    /** pmm_init. Exactly the pages of FreeAtBoot end up free when the bitmap leaves the memory map
        alone; when it covers the map, no page does. */
    method Init(info: BootInfo) returns (st: Status)
      requires BootInfoOk(info) && StructuresClear(info) && (MapClear(info) || MapOverwritten(info))
      modifies this
      ensures !info.hasMemMap ==> st == Error && unchanged(this)
      ensures info.hasMemMap ==> st == Ok && fresh(bits) && Valid()
      ensures info.hasMemMap ==> total == MaxAddr(info.entries) / PAGE && bits.Length == BitmapSize(total)
      ensures info.hasMemMap && MapClear(info) ==> forall p :: p in FreeSet(taken) <==> FreeAtBoot(info, p)
      ensures info.hasMemMap && MapOverwritten(info) ==> FreeSet(taken) == {}
      ensures info.hasMemMap ==> bitsAt % PAGE == 0 && info.kernelEnd <= bitsAt < info.kernelEnd + PAGE
      ensures info.hasMemMap ==>
                bits.Length % PAGE == 0 && total <= 8 * bits.Length && (total == 0 || 8 * (bits.Length - PAGE) < total)
      ensures info.hasMemMap ==>
                forall p, x {:trigger p in FreeSet(taken), InPage(x, p)} ::
                  p in FreeSet(taken) && InPage(x, p) ==> Spare(info, bitsAt, bits.Length, x)
      ensures info.hasMemMap && MapClear(info) && ModulesForward(info) ==>
                forall p :: p in FreeSet(taken) <==>
                  InUsable(info.entries, p) && SparePage(info, bitsAt, bits.Length, p)
    {
      if !info.hasMemMap {
        return Error;
      }
      bitsAt := SetUp(info);
      BootSpare(info, bitsAt, bits.Length, FreeSet(taken));
      st := Ok;
    }

    /** pmm_init with a memory map; it answers the address of the bitmap. */
    method SetUp(info: BootInfo) returns (bitmapAddr: nat)
      requires BootInfoOk(info) && StructuresClear(info) && (MapClear(info) || MapOverwritten(info))
      modifies this
      ensures fresh(bits) && Valid() && bitmapAddr == BitmapAddr(info)
      ensures total == MaxAddr(info.entries) / PAGE && bits.Length == BitmapSize(total)
      ensures MapClear(info) ==> forall p :: p in FreeSet(taken) <==> FreeAtBoot(info, p)
      ensures MapOverwritten(info) ==> FreeSet(taken) == {}
    {
      var maxAddr := FindMaxAddr(info.entries);
      total := maxAddr / PAGE;
      var size := BitmapSize(total);
      bitmapAddr := BitmapAddr(info);
      BootSizes(info);
      BlankBitmap(size, bitmapAddr);
      WalkMap(info, bitmapAddr, size);
      ghost var mapped := FreeSet(taken);
      ReserveBootData(info);
      BootResult(info, mapped, FreeSet(taken));
    }

    /** The second walk of the memory map. Where the bitmap covers the map, the walk reads bitmap bytes. */
    method WalkMap(info: BootInfo, bitmapAddr: nat, size: nat)
      requires Counted() && FreeSet(taken) == {} && (MapClear(info) || MapOverwritten(info))
      requires total == MaxAddr(info.entries) / PAGE && bits.Length == size == BitmapSize(total)
      requires bitmapAddr == BitmapAddr(info) && bitmapAddr + size < TWO32
      requires bitmapAddr % PAGE == 0 && size % PAGE == 0
      modifies this`freePages, this`usedPages, this`taken, bits
      ensures Counted()
      ensures MapClear(info) ==> FreeSet(taken) == UsablePages(info.entries) - TouchedPages(bitmapAddr, size)
      ensures MapOverwritten(info) ==> FreeSet(taken) == {}
    {
      if MapOverwritten(info) {
        NotBoth(info);
        WalkBitmap(info.mmapAddr, info.mmapLength, bitmapAddr, size);
      } else {
        FreeAvailable(info.entries, bitmapAddr, size);
      }
    }

    /** That walk over bitmap bytes: as long as no page is free they are all 0xFF, so that the type read is
        never MULTIBOOT_MEMORY_AVAILABLE and the size read moves the cursor by three bytes. */
    method WalkBitmap(mmapAddr: nat, mmapLength: nat, bitmapAddr: nat, size: nat)
      requires Counted() && FreeSet(taken) == {} && bits.Length == size
      requires bitmapAddr <= mmapAddr && mmapAddr + mmapLength + MAP_ENTRY_SIZE <= bitmapAddr + size < TWO32
      requires bitmapAddr % PAGE == 0 && size % PAGE == 0
      modifies this`freePages, this`usedPages, this`taken, bits
      ensures Counted() && FreeSet(taken) == {}
    {
      var at := mmapAddr;
      while at < mmapAddr + mmapLength
        invariant mmapAddr <= at <= mmapAddr + mmapLength + 2
        invariant Counted() && FreeSet(taken) == {}
      {
        var entry, entrySize := ReadEntry(at - bitmapAddr);
        WalkEntry(entry, bitmapAddr, size);
        assert FreeSet(taken) == {};
        at := Wrap32(at + entrySize + 4);
      }
    }

    /** A multiboot_memory_map_t read from the bitmap: size, addr, len and type, little-endian. */
    method ReadEntry(o: nat) returns (e: MemEntry, size: nat)
      requires o + MAP_ENTRY_SIZE <= bits.Length
      ensures size == WordIn(bits[..], o) && e.kind == WordIn(bits[..], o + 20)
      ensures Counted() && FreeSet(taken) == {} ==> size == 0xFFFF_FFFF && e.kind == 0xFFFF_FFFF
    {
      size := ReadWord(o);
      var addrLow := ReadWord(o + 4);
      var addrHigh := ReadWord(o + 8);
      var lenLow := ReadWord(o + 12);
      var lenHigh := ReadWord(o + 16);
      var kind := ReadWord(o + 20);
      e := MemEntry(addrLow + TWO32 * addrHigh, lenLow + TWO32 * lenHigh, kind);
      if Counted() && FreeSet(taken) == {} {
        OnesEverywhere();
        WordOfOnes(bits[..], o);
        WordOfOnes(bits[..], o + 20);
      }
    }

    method ReadWord(o: nat) returns (w: nat)
      requires o + 4 <= bits.Length
      ensures w == WordIn(bits[..], o)
    {
      var b0: int, b1: int, b2: int, b3: int := bits[o], bits[o + 1], bits[o + 2], bits[o + 3];
      w := b0 + 0x100 * b1 + 0x1_0000 * b2 + 0x100_0000 * b3;
    }

    /** With no page free every byte of the bitmap is 0xFF. */
    lemma OnesEverywhere()
      requires Counted() && FreeSet(taken) == {}
      ensures forall i :: 0 <= i < bits.Length ==> bits[i] == 0xFF
    {
      assert Open(TheBits, 0);
      forall i | 0 <= i < bits.Length ensures bits[i] == 0xFF {
        ByteView(bits[..], taken, i);
        forall k: nat | k < 8 ensures Bit(bits[i], k) {
          assert 8 * i + k !in FreeSet(taken);
        }
      }
    }

    /** The body of the second walk: free the pages of an available entry from 1 MiB up. */
    method WalkEntry(e: MemEntry, bitmapAddr: nat, size: nat)
      requires Counted() && (Usable(e) ==> (e.addr + e.len) / PAGE <= total)
      requires bitmapAddr % PAGE == 0 && size % PAGE == 0
      modifies this`freePages, this`usedPages, this`taken, bits
      ensures Counted()
      ensures Usable(e) ==> FreeSet(taken) == old(FreeSet(taken)) + (EntryPages(e) - TouchedPages(bitmapAddr, size))
      ensures !Usable(e) ==> FreeSet(taken) == old(FreeSet(taken))
    {
      if e.kind == AVAILABLE && e.addr >= ONE_MIB {
        FreeEntry(e, bitmapAddr, size);
      }
    }

    /** The bitmap before any page is freed, with the low memory and the bitmap itself marked. */
    method BlankBitmap(size: nat, bitmapAddr: nat)
      requires total <= 8 * size && total <= 0x10_0000 && size <= 0x2_0000
      modifies this`bits, this`taken, this`freePages, this`usedPages
      ensures fresh(bits) && bits.Length == size && Counted() && FreeSet(taken) == {}
    {
      FillBitmap(size);
      MarkRegionAllocated(0, ONE_MIB);
      MarkRegionAllocated(bitmapAddr, size);
    }

    /** The memset of pmm_init: a new bitmap with every page taken. */
    method FillBitmap(size: nat)
      requires total <= 8 * size && total <= 0x10_0000 && size <= 0x2_0000
      modifies this`bits, this`taken, this`freePages, this`usedPages
      ensures fresh(bits) && bits.Length == size && Counted() && FreeSet(taken) == {}
    {
      bits := new Byte[size](_ => 0xFF);
      freePages := 0;
      usedPages := total;
      taken := seq(8 * size, _ => true);
      AllTaken(bits[..], taken, total);
    }

    /** The first loop of pmm_init: the end of the highest available entry. */
    method FindMaxAddr(es: seq<MemEntry>) returns (maxAddr: nat)
      ensures maxAddr == MaxAddr(es)
    {
      maxAddr := 0;
      for k := 0 to |es|
        invariant maxAddr == MaxAddr(es[..k])
      {
        assert es[..k + 1][..k] == es[..k];
        if es[k].kind == AVAILABLE {
          var end := es[k].addr + es[k].len;
          if end > maxAddr {
            maxAddr := end;
          }
        }
      }
      assert es[..|es|] == es;
    }

    /** The second loop of pmm_init: free what the map calls available, from 1 MiB up. */
    method FreeAvailable(es: seq<MemEntry>, bitmapAddr: nat, size: nat)
      requires Counted() && FreeSet(taken) == {}
      requires total == MaxAddr(es) / PAGE
      requires bitmapAddr % PAGE == 0 && size % PAGE == 0
      modifies this`freePages, this`usedPages, this`taken, bits
      ensures Counted()
      ensures FreeSet(taken) == UsablePages(es) - TouchedPages(bitmapAddr, size)
    {
      for k := 0 to |es|
        invariant Counted()
        invariant FreeSet(taken) == UsablePages(es[..k]) - TouchedPages(bitmapAddr, size)
      {
        UsableGrows(es, k);
        UnionCut(UsablePages(es[..k]), EntryPages(es[k]), TouchedPages(bitmapAddr, size));
        WalkEntry(es[k], bitmapAddr, size);
      }
      assert es[..|es|] == es;
    }

    /** The last part of pmm_init: take what the boot structures, modules and kernel occupy. */
    method ReserveBootData(info: BootInfo)
      requires Counted() && ONE_MIB <= info.kernelEnd
      modifies this`freePages, this`usedPages, this`taken, bits
      ensures Counted()
      ensures FreeSet(taken) == old(FreeSet(taken)) - ReservedPages(info)
    {
      CutTwice(FreeSet(taken), TablePages(info), ImagePages(info));
      ReserveTables(info);
      ReserveImage(info);
    }

    method ReserveImage(info: BootInfo)
      requires Counted() && ONE_MIB <= info.kernelEnd
      modifies this`freePages, this`usedPages, this`taken, bits
      ensures Counted()
      ensures FreeSet(taken) == old(FreeSet(taken)) - ImagePages(info)
    {
      CutTwice(FreeSet(taken), BootModulePages(info), TouchedPages(ONE_MIB, info.kernelEnd - ONE_MIB));
      ReserveBootModules(info);
      MarkRegionAllocated(ONE_MIB, info.kernelEnd - ONE_MIB);
    }

    method ReserveTables(info: BootInfo)
      requires Counted()
      modifies this`freePages, this`usedPages, this`taken, bits
      ensures Counted()
      ensures FreeSet(taken) == old(FreeSet(taken)) - TablePages(info)
    {
      CutTwice(FreeSet(taken), TouchedPages(info.infoAddr, MULTIBOOT_INFO_SIZE),
               TouchedPages(info.mmapAddr, info.mmapLength));
      MarkRegionAllocated(info.infoAddr, MULTIBOOT_INFO_SIZE);
      MarkRegionAllocated(info.mmapAddr, info.mmapLength);
    }

    method ReserveBootModules(info: BootInfo)
      requires Counted()
      modifies this`freePages, this`usedPages, this`taken, bits
      ensures Counted()
      ensures FreeSet(taken) == old(FreeSet(taken)) - BootModulePages(info)
    {
      if info.hasMods {
        ReserveModules(info.mods);
      }
    }

    /** The module loop of pmm_init. */
    method ReserveModules(mods: seq<BootModule>)
      requires Counted()
      modifies this`freePages, this`usedPages, this`taken, bits
      ensures Counted()
      ensures FreeSet(taken) == old(FreeSet(taken)) - ModulePages(mods)
    {
      ghost var free := FreeSet(taken);
      assert free - {} == free;
      for i := 0 to |mods|
        invariant Counted()
        invariant FreeSet(taken) == free - ModulePages(mods[..i])
      {
        ModulesGrow(mods, i);
        CutTwice(free, ModulePages(mods[..i]), TouchedPages(mods[i].start, ModuleLength(mods[i])));
        MarkRegionAllocated(mods[i].start, Wrap32(mods[i].end - mods[i].start));
      }
      assert mods[..|mods|] == mods;
    }

    /** pmm_alloc_page: the lowest free page, or 0 exactly when none is free. */
    method AllocPage() returns (r: int)
      requires Valid()
      modifies this`freePages, this`usedPages, this`taken, bits
      ensures Valid()
      ensures r == 0 <==> old(FreeSet(taken)) == {}
      ensures Allowed(old(FreeSet(taken)), AllocOne(r))
      ensures FreeSet(taken) == After(old(FreeSet(taken)), AllocOne(r))
    {
      assert Open(TheBits, 0) && Open(TheFrames, 0);
      if freePages == 0 {
        return 0;
      }
      var bit := FindFreeBit();
      if bit == NOT_FOUND {
        return 0;
      }
      Take(bit, freePages, usedPages);
      freePages := freePages - 1;
      usedPages := usedPages + 1;
      return bit * PAGE;
    }

    /** pmm_alloc_pages: the lowest run of free pages, or 0 exactly when there is none. */
    method AllocPages(count: nat) returns (r: int)
      requires Valid()
      modifies this`freePages, this`usedPages, this`taken, bits
      ensures Valid()
      ensures r == 0 <==> count == 0 || forall s :: !ClearRun(old(taken), s, count)
      ensures Allowed(old(FreeSet(taken)), AllocRun(count, r))
      ensures FreeSet(taken) == After(old(FreeSet(taken)), AllocRun(count, r))
    {
      assert Open(TheBits, 0) && Open(TheFrames, 0);
      RunNeedsPages(taken, count);
      if count != 0 {
        RunsAgree(taken, count);
      }
      if freePages < count {
        return 0;
      }
      var startBit := FindFreeBits(count);
      if startBit == NOT_FOUND {
        return 0;
      }
      SetRun(startBit, count);
      freePages := freePages - count;
      usedPages := usedPages + count;
      return startBit * PAGE;
    }

    /** The loop of pmm_alloc_pages, which sets the bits and leaves the counters to its caller. */
    method SetRun(startBit: nat, count: nat)
      requires Counted() && ClearRun(taken, startBit, count)
      modifies this`taken, bits
      ensures Linked(bits[..], taken)
      ensures CountedBits(taken, total, freePages - count, usedPages + count)
      ensures FreeSet(taken) == old(FreeSet(taken)) - Range(startBit, startBit + count)
    {
      assert Open(TheBits, 0);
      ghost var run, free := Range(startBit, startBit + count), FreeSet(taken);
      assert run <= free;
      NoPages(free, startBit);
      for i := 0 to count
        invariant Linked(bits[..], taken)
        invariant FreeSet(taken) == free - Range(startBit, startBit + i)
        invariant CountedBits(taken, total, freePages - i, usedPages + i)
      {
        assert startBit + i in run && startBit + i in FreeSet(taken);
        Take(startBit + i, freePages - i, usedPages + i);
        RangeTaken(free, startBit, startBit + i);
      }
    }

    /** pmm_free_page. A page beyond the bitmap is ignored; the bits of page 0 and of the padding
        behind the managed pages must not be cleared. */
    method FreePage(addr: nat)
      requires Valid()
      requires addr == 0 || 0 < addr / PAGE < total || 8 * bits.Length <= addr / PAGE
      modifies this`freePages, this`usedPages, this`taken, bits
      ensures Valid()
      ensures FreeSet(taken) ==
              if addr / PAGE < total then After(old(FreeSet(taken)), FreeOne(addr)) else old(FreeSet(taken))
    {
      BitForEveryPage();
      assert Open(TheFrames, 0);
      if addr == 0 {
        return;
      }
      if addr / PAGE < total {
        Release(addr / PAGE);
      } else {
        IgnoreBits(addr / PAGE, 1);
      }
    }

    /** pmm_free_pages, with the same exceptions. */
    method FreePages(addr: nat, count: nat)
      requires Valid()
      requires addr == 0 || (0 < addr / PAGE && addr / PAGE + count <= total) || 8 * bits.Length <= addr / PAGE
      modifies this`freePages, this`usedPages, this`taken, bits
      ensures Valid()
      ensures FreeSet(taken) ==
              if addr / PAGE < total then After(old(FreeSet(taken)), FreeRun(addr, count)) else old(FreeSet(taken))
    {
      BitForEveryPage();
      assert Open(TheFrames, 0);
      if addr == 0 || count == 0 {
        return;
      }
      var startBit := addr / PAGE;
      if startBit < total {
        ReleaseRun(startBit, count);
      } else {
        IgnoreBits(startBit, count);
      }
    }

    /** The loop of pmm_free_pages on managed pages. */
    method ReleaseRun(startBit: nat, count: nat)
      requires Counted() && startBit + count <= total
      modifies this`freePages, this`usedPages, this`taken, bits
      ensures Counted()
      ensures FreeSet(taken) == old(FreeSet(taken)) + Range(startBit, startBit + count)
    {
      ghost var free := FreeSet(taken);
      NoPages(free, startBit);
      for i := 0 to count
        invariant Counted()
        invariant FreeSet(taken) == free + Range(startBit, startBit + i)
      {
        RangeGiven(free, startBit, startBit + i);
        Release(startBit + i);
      }
    }

    /** Bits beyond the bitmap read as clear, so freeing their pages does nothing. */
    method IgnoreBits(startBit: nat, count: nat)
      requires 8 * bits.Length <= startBit
    {
      for i := 0 to count
      {
        var isSet := TestBitAt(startBit + i);
        assert !isSet;
      }
    }

    /** The step both free operations share: clear a set bit and move the counters. */
    method Release(bit: nat)
      requires Counted() && bit < total
      modifies this`freePages, this`usedPages, this`taken, bits
      ensures Counted()
      ensures FreeSet(taken) == old(FreeSet(taken)) + {bit}
    {
      assert Open(TheBits, 0);
      var isSet := TestBitAt(bit);
      if isSet {
        GiveOne(taken, total, freePages, usedPages, bit);
        PutBitLinked(bits[..], taken, bit, false);
        ClearBitAt(bit);
        taken := taken[bit := false];
        freePages := freePages + 1;
        if usedPages > 0 {
          usedPages := usedPages - 1;
        }
      }
    }
  }

  // ---------------------------------------------------------------- counting

  lemma TakeOne(u: seq<bool>, total: nat, f: int, n: int, i: int)
    requires CountedBits(u, total, f, n) && 0 <= i < |u| && !u[i]
    ensures CountedBits(u[i := true], total, f - 1, n + 1)
    ensures FreeSet(u[i := true]) == FreeSet(u) - {i} && 0 < f
  {
    assert FreeSet(u[i := true]) == FreeSet(u) - {i};
    assert UsedSet(u[i := true], total) == UsedSet(u, total) + {i};
  }

  lemma GiveOne(u: seq<bool>, total: nat, f: int, n: int, i: int)
    requires CountedBits(u, total, f, n) && 0 <= i < total && u[i]
    ensures CountedBits(u[i := false], total, f + 1, n - 1)
    ensures FreeSet(u[i := false]) == FreeSet(u) + {i} && 0 < n
  {
    assert FreeSet(u[i := false]) == FreeSet(u) + {i};
    assert UsedSet(u[i := false], total) == UsedSet(u, total) - {i};
  }

  lemma AllTaken(b: seq<Byte>, u: seq<bool>, total: nat)
    requires forall i :: 0 <= i < |b| ==> b[i] == 0xFF
    requires |u| == 8 * |b| && forall i :: 0 <= i < |u| ==> u[i]
    requires total <= 8 * |b| && total <= 0x10_0000
    ensures Linked(b, u) && FreeSet(u) == {} && CountedBits(u, total, 0, total)
  {
    forall i | 0 <= i < |u| ensures TestBit(b, i) {
      FullByte(b[i / 8]);
    }
    assert UsedSet(u, total) == Range(0, total);
    RangeSize(0, total);
  }

  lemma SubsetSize(a: set<int>, b: set<int>)
    requires a <= b
    ensures |a| <= |b|
  {
    assert b == a + (b - a);
  }

  lemma RunNeedsPages(u: seq<bool>, count: nat)
    ensures forall s :: ClearRun(u, s, count) ==> count <= |FreeSet(u)|
  {
    forall s | ClearRun(u, s, count) ensures count <= |FreeSet(u)| {
      SubsetSize(Range(s, s + count), FreeSet(u));
      RangeSize(s, s + count);
    }
  }

  lemma RunsAgree(u: seq<bool>, n: nat)
    requires 0 < n
    ensures forall s :: RunIn(FreeSet(u), s, n) <==> ClearRun(u, s, n)
  {
    forall s | RunIn(FreeSet(u), s, n) ensures ClearRun(u, s, n) {
      assert s in Range(s, s + n) && s + n - 1 in Range(s, s + n);
      forall i | s <= i < s + n ensures !u[i] {
        assert i in Range(s, s + n);
      }
    }
  }

  // ---------------------------------------------------------------- page arithmetic

  lemma NoPages(free: set<int>, lo: int)
    ensures free + Range(lo, lo) == free && free - Range(lo, lo) == free
  {
    assert Range(lo, lo) == {};
  }

  /** Stopping at the end of the managed pages leaves out no free page. */
  lemma AllPassed(free: set<int>, lo: int, at: int, hi: int, total: int)
    requires at <= hi && (at == hi || total <= at) && forall p :: p in free ==> 0 <= p < total
    ensures free - Range(lo, at) == free - Range(lo, hi)
  {}

  lemma RangeGiven(free: set<int>, lo: int, hi: int)
    requires lo <= hi
    ensures free + Range(lo, hi + 1) == (free + Range(lo, hi)) + {hi}
  {
    assert Range(lo, hi + 1) == Range(lo, hi) + {hi};
  }

  /** The free pages once FreeEntry has passed page p. */
  ghost function PageStep(free: set<int>, p: int, bitmap: set<int>): set<int> {
    if p in bitmap then free else free + {p}
  }

  /** The free pages once FreeEntry has passed the pages [lo, hi). */
  ghost function EntryStep(free: set<int>, lo: int, hi: int, bitmap: set<int>): set<int>
    decreases hi - lo
  {
    if hi <= lo then free else PageStep(EntryStep(free, lo, hi - 1, bitmap), hi - 1, bitmap)
  }

  lemma {:induction false} EntryStepIs(free: set<int>, lo: int, hi: int, bitmap: set<int>)
    ensures EntryStep(free, lo, hi, bitmap) == free + (Range(lo, hi) - bitmap)
    decreases hi - lo
  {
    if lo < hi {
      EntryStepIs(free, lo, hi - 1, bitmap);
      assert Range(lo, hi) == Range(lo, hi - 1) + {hi - 1};
    } else {
      assert Range(lo, hi) == {};
    }
  }

  /** The bitmap has a bit for every page that can exist. */
  lemma BootSizes(info: BootInfo)
    requires BootInfoOk(info)
    ensures var total := MaxAddr(info.entries) / PAGE;
            && total <= 8 * BitmapSize(total) && total <= 0x10_0000 && 0 <= BitmapSize(total) <= 0x2_0000
            && BitmapSize(total) % PAGE == 0
    ensures 0 <= BitmapAddr(info) && BitmapAddr(info) % PAGE == 0
  {
    assert MaxAddr(info.entries) / PAGE <= 0x10_0000;
    SizeFacts(MaxAddr(info.entries) / PAGE);
    PageAligned(info.kernelEnd);
  }

  lemma SizeFacts(total: nat)
    requires total <= 0x10_0000
    ensures total <= 8 * BitmapSize(total) && 0 <= BitmapSize(total) <= 0x2_0000 && BitmapSize(total) % PAGE == 0
  {
    var bytes := (total + 7) / 8;
    assert total <= 8 * bytes <= total + 7;
    AlignBelow(bytes, 32);
  }

  lemma AlignBelow(x: nat, pages: nat)
    requires x <= PAGE * pages
    ensures x <= AlignUp(x, PAGE) <= PAGE * pages && AlignUp(x, PAGE) % PAGE == 0
  {
    PageAligned(x);
    var up := AlignUp(x, PAGE) / PAGE;
    assert AlignUp(x, PAGE) == PAGE * up;
  }

  lemma EntrySpan(e: MemEntry)
    ensures 0 <= AlignUp(e.addr, PAGE) / PAGE
    ensures EntryPages(e) == Range(AlignUp(e.addr, PAGE) / PAGE, (e.addr + e.len) / PAGE)
  {}

  lemma BitmapPage(addr: int, size: int, p: int)
    requires 0 <= addr && addr % PAGE == 0 && size % PAGE == 0
    ensures p in TouchedPages(addr, size) <==> addr <= p * PAGE < addr + size
  {}

  lemma UsableGrows(es: seq<MemEntry>, k: nat)
    requires k < |es|
    ensures Usable(es[k]) ==> UsablePages(es[..k + 1]) == UsablePages(es[..k]) + EntryPages(es[k])
    ensures !Usable(es[k]) ==> UsablePages(es[..k + 1]) == UsablePages(es[..k])
  {
    assert es[..k + 1][..k] == es[..k];
  }

  lemma ModulesGrow(ms: seq<BootModule>, k: nat)
    requires k < |ms|
    ensures ModulePages(ms[..k + 1]) == ModulePages(ms[..k]) + TouchedPages(ms[k].start, ModuleLength(ms[k]))
  {
    assert ms[..k + 1][..k] == ms[..k];
  }

  lemma UnionCut(a: set<int>, b: set<int>, cut: set<int>)
    ensures (a + b) - cut == (a - cut) + (b - cut)
  {}

  lemma CutTwice(a: set<int>, b: set<int>, c: set<int>)
    ensures (a - b) - c == a - (b + c)
  {}

  lemma TouchedMeans(start: int, len: int, p: int)
    requires 0 <= start
    ensures p in TouchedPages(start, len) <==> Touches(start, len, p)
  {}

  lemma EntryMeans(e: MemEntry, p: int)
    ensures p in EntryPages(e) <==> WhollyInside(e, p)
  {}

  lemma RangeTaken(free: set<int>, lo: int, hi: int)
    requires lo <= hi
    ensures free - Range(lo, hi + 1) == (free - Range(lo, hi)) - {hi}
  {
    assert Range(lo, hi + 1) == Range(lo, hi) + {hi};
  }

  lemma {:induction false} UsableMeans(es: seq<MemEntry>, p: int)
    ensures p in UsablePages(es) <==> InUsable(es, p)
  {
    if es != [] {
      var n := |es| - 1;
      UsableMeans(es[..n], p);
      EntryMeans(es[n], p);
      assert forall i :: 0 <= i < n ==> es[..n][i] == es[i];
    }
  }

  lemma {:induction false} ModulesMean(ms: seq<BootModule>, p: int)
    ensures p in ModulePages(ms) <==> InModule(ms, p)
  {
    if ms != [] {
      var n := |ms| - 1;
      ModulesMean(ms[..n], p);
      TouchedMeans(ms[n].start, ModuleLength(ms[n]), p);
      assert forall i :: 0 <= i < n ==> ms[..n][i] == ms[i];
    }
  }

  /** The page sets pmm_init adds and subtracts. */
  ghost function BootFree(info: BootInfo): set<int> {
    UsablePages(info.entries)
    - TouchedPages(BitmapAddr(info), BitmapSize(MaxAddr(info.entries) / PAGE))
    - ReservedPages(info)
  }

  ghost function BootModulePages(info: BootInfo): set<int> {
    if info.hasMods then ModulePages(info.mods) else {}
  }

  ghost function TablePages(info: BootInfo): set<int> {
    TouchedPages(info.infoAddr, MULTIBOOT_INFO_SIZE) + TouchedPages(info.mmapAddr, info.mmapLength)
  }

  ghost function ImagePages(info: BootInfo): set<int> {
    BootModulePages(info) + TouchedPages(ONE_MIB, info.kernelEnd - ONE_MIB)
  }

  ghost function ReservedPages(info: BootInfo): set<int> {
    TablePages(info) + ImagePages(info)
  }

  /** What pmm_init amounts to, in both cases; `mapped` are the pages the second walk has freed. */
  lemma BootResult(info: BootInfo, mapped: set<int>, free: set<int>)
    requires MapClear(info) || MapOverwritten(info)
    requires MapClear(info) ==> mapped == UsablePages(info.entries)
                                         - TouchedPages(BitmapAddr(info), BitmapSize(MaxAddr(info.entries) / PAGE))
    requires MapOverwritten(info) ==> mapped == {}
    requires free == mapped - ReservedPages(info)
    ensures MapClear(info) ==> forall p :: p in free <==> FreeAtBoot(info, p)
    ensures MapOverwritten(info) ==> free == {}
    ensures 0 !in free
  {
    BootPages(info);
    if MapClear(info) {
      assert free == BootFree(info);
    }
  }

  // ---------------------------------------------------------------- byte by byte

  predicate InPage(x: int, p: int) {
    p * PAGE <= x < (p + 1) * PAGE
  }

  /** The byte at x is there and nothing needs it: it is in memory the map calls available (type 1), behind the
      kernel, and not part of the bitmap of `size` bytes at `at`, the boot information, the memory map or a
      module. */
  ghost predicate Spare(info: BootInfo, at: int, size: int, x: int) {
    && InAvailable(info.entries, x) && info.kernelEnd <= x && !(at <= x < at + size)
    && !(info.infoAddr <= x < info.infoAddr + MULTIBOOT_INFO_SIZE)
    && !(info.mmapAddr <= x < info.mmapAddr + info.mmapLength)
    && (info.hasMods ==> !InModuleBytes(info.mods, x))
  }

  ghost predicate InAvailable(es: seq<MemEntry>, x: int) {
    exists k :: 0 <= k < |es| && es[k].kind == 1 && es[k].addr <= x < es[k].addr + es[k].len
  }

  ghost predicate InModuleBytes(ms: seq<BootModule>, x: int) {
    exists k :: 0 <= k < |ms| && ms[k].end < TWO32 && ms[k].start <= x < ms[k].end
  }

  ghost predicate SparePage(info: BootInfo, at: int, size: int, p: int) {
    forall x :: InPage(x, p) ==> Spare(info, at, size, x)
  }

  /** Every module ends behind its start. */
  ghost predicate ModulesForward(info: BootInfo) {
    forall k :: 0 <= k < |info.mods| ==> info.mods[k].start <= info.mods[k].end < TWO32
  }

  /** A page touches a range exactly when it has a byte of it. */
  lemma TouchesByte(start: int, len: int, p: int)
    ensures Touches(start, len, p) <==> exists x :: InPage(x, p) && start <= x < start + len
  {
    if Touches(start, len, p) {
      var x := if start < p * PAGE then p * PAGE else start;
      assert InPage(x, p) && start <= x < start + len;
    }
  }

  lemma ModuleBytes(ms: seq<BootModule>, p: int, x: int)
    requires InPage(x, p) && InModuleBytes(ms, x)
    ensures InModule(ms, p)
  {
    var k :| 0 <= k < |ms| && ms[k].end < TWO32 && ms[k].start <= x < ms[k].end;
    assert ModuleLength(ms[k]) == ms[k].end - ms[k].start;
    TouchesByte(ms[k].start, ModuleLength(ms[k]), p);
  }

  lemma ModuleHasByte(info: BootInfo, p: int) returns (x: int)
    requires ModulesForward(info) && InModule(info.mods, p)
    ensures InPage(x, p) && InModuleBytes(info.mods, x)
  {
    var k :| 0 <= k < |info.mods| && Touches(info.mods[k].start, ModuleLength(info.mods[k]), p);
    var m := info.mods[k];
    assert ModuleLength(m) == m.end - m.start;
    TouchesByte(m.start, m.end - m.start, p);
    x :| InPage(x, p) && m.start <= x < m.start + (m.end - m.start);
  }

  /** No byte of a page that is free at boot is needed. */
  lemma FreeIsSpare(info: BootInfo, p: int)
    requires FreeAtBoot(info, p) && ONE_MIB <= info.kernelEnd
    ensures SparePage(info, BitmapAddr(info), BitmapSize(MaxAddr(info.entries) / PAGE), p)
  {
    var at, size := BitmapAddr(info), BitmapSize(MaxAddr(info.entries) / PAGE);
    TouchesByte(at, size, p);
    TouchesByte(info.infoAddr, MULTIBOOT_INFO_SIZE, p);
    TouchesByte(info.mmapAddr, info.mmapLength, p);
    TouchesByte(ONE_MIB, info.kernelEnd - ONE_MIB, p);
    var k :| 0 <= k < |info.entries| && Usable(info.entries[k]) && WhollyInside(info.entries[k], p);
    var e := info.entries[k];
    forall x | InPage(x, p) ensures Spare(info, at, size, x) {
      assert e.kind == 1 && ONE_MIB <= e.addr <= x < e.addr + e.len;
      if info.hasMods && InModuleBytes(info.mods, x) {
        ModuleBytes(info.mods, p, x);
      }
    }
  }

  /** And a usable page none of whose bytes is needed is free. */
  lemma SpareIsFree(info: BootInfo, p: int)
    requires InUsable(info.entries, p) && ModulesForward(info)
    requires SparePage(info, BitmapAddr(info), BitmapSize(MaxAddr(info.entries) / PAGE), p)
    ensures FreeAtBoot(info, p)
  {
    TouchesByte(BitmapAddr(info), BitmapSize(MaxAddr(info.entries) / PAGE), p);
    TouchesByte(info.infoAddr, MULTIBOOT_INFO_SIZE, p);
    TouchesByte(info.mmapAddr, info.mmapLength, p);
    TouchesByte(ONE_MIB, info.kernelEnd - ONE_MIB, p);
    if info.hasMods && InModule(info.mods, p) {
      var x := ModuleHasByte(info, p);
    }
  }

  /** Where the bitmap is, how large it is, and what is free besides it. */
  lemma BootSpare(info: BootInfo, at: nat, size: nat, free: set<int>)
    requires BootInfoOk(info) && at == BitmapAddr(info) && size == BitmapSize(MaxAddr(info.entries) / PAGE)
    requires MapClear(info) || free == {}
    requires MapClear(info) ==> forall p :: p in free <==> FreeAtBoot(info, p)
    ensures at % PAGE == 0 && info.kernelEnd <= at < info.kernelEnd + PAGE
    ensures var total := MaxAddr(info.entries) / PAGE;
            size % PAGE == 0 && total <= 8 * size && (total == 0 || 8 * (size - PAGE) < total)
    ensures forall p, x {:trigger p in free, InPage(x, p)} :: p in free && InPage(x, p) ==> Spare(info, at, size, x)
    ensures MapClear(info) && ModulesForward(info) ==>
              forall p :: p in free <==> InUsable(info.entries, p) && SparePage(info, at, size, p)
  {
    PageAligned(info.kernelEnd);
    PageAligned((MaxAddr(info.entries) / PAGE + 7) / 8);
    forall p | p in free ensures SparePage(info, at, size, p) {
      FreeIsSpare(info, p);
    }
    if MapClear(info) && ModulesForward(info) {
      forall p | InUsable(info.entries, p) && SparePage(info, at, size, p) ensures p in free {
        SpareIsFree(info, p);
      }
    }
  }

  /** The 32-bit little-endian word at offset o. */
  function WordIn(b: seq<Byte>, o: nat): nat
    requires o + 4 <= |b|
  {
    var b0: int, b1: int, b2: int, b3: int := b[o], b[o + 1], b[o + 2], b[o + 3];
    b0 + 0x100 * b1 + 0x1_0000 * b2 + 0x100_0000 * b3
  }

  lemma WordOfOnes(b: seq<Byte>, o: nat)
    requires o + 4 <= |b| && forall i :: 0 <= i < |b| ==> b[i] == 0xFF
    ensures WordIn(b, o) == 0xFFFF_FFFF
  {}

  lemma NotBoth(info: BootInfo)
    requires MapOverwritten(info)
    ensures !MapClear(info)
  {}

  /** A boot loader that puts the memory map right behind the kernel. */
  function MapBehindKernel(): BootInfo {
    BootInfo(true, false, [MemEntry(ONE_MIB, 0x1000_0000, AVAILABLE)], [], 0x9000, 0x20_0100, 24, 0, 0x20_0000)
  }

  /** There pages that should be free exist, and none will be. */
  lemma MemsetLosesMemory()
    ensures var info := MapBehindKernel();
            BootInfoOk(info) && StructuresClear(info) && MapOverwritten(info) && FreeAtBoot(info, 0x300)
  {
    var info := MapBehindKernel();
    MapBehindSizes();
    var e := info.entries[0];
    assert Usable(e) && WhollyInside(e, 0x300);
  }

  lemma MapBehindSizes()
    ensures var info := MapBehindKernel();
            && MaxAddr(info.entries) == 0x1010_0000 && BitmapAddr(info) == 0x20_0000
            && BitmapSize(0x1010_0000 / PAGE) == 0x3000
  {
    var es := MapBehindKernel().entries;
    assert es[..0] == [];
    assert MaxAddr(es[..0]) == 0;
  }

  /** They amount to FreeAtBoot, and page 0 is not among them. */
  lemma BootPages(info: BootInfo)
    ensures forall p :: p in BootFree(info) <==> FreeAtBoot(info, p)
    ensures 0 !in BootFree(info)
  {
    forall p ensures p in BootFree(info) <==> FreeAtBoot(info, p) {
      UsableMeans(info.entries, p);
      ModulesMean(info.mods, p);
      TouchedMeans(BitmapAddr(info), BitmapSize(MaxAddr(info.entries) / PAGE), p);
      TouchedMeans(info.infoAddr, MULTIBOOT_INFO_SIZE, p);
      TouchedMeans(info.mmapAddr, info.mmapLength, p);
      TouchedMeans(ONE_MIB, info.kernelEnd - ONE_MIB, p);
    }
  }

  // ---------------------------------------------------------------- whole runs

  /** One call with its result; `addr` is 0 when nothing was handed out. */
  datatype Event =
    | AllocOne(addr: int)
    | AllocRun(count: nat, addr: int)
    | FreeOne(addr: int)
    | FreeRun(addr: int, count: nat)
  {
    /** The pages the call moves. */
    ghost function Pages(): set<int> {
      if addr == 0 then {} else
      match this
      case AllocOne(_) => {addr / PAGE}
      case AllocRun(n, _) => Range(addr / PAGE, addr / PAGE + n)
      case FreeOne(_) => {addr / PAGE}
      case FreeRun(_, n) => Range(addr / PAGE, addr / PAGE + n)
    }

    predicate IsAlloc() {
      AllocOne? || AllocRun?
    }
  }

  /** What an allocation answers: the lowest free page or run, 0 when there is none. */
  ghost predicate Allowed(free: set<int>, e: Event) {
    match e
    case AllocOne(a) =>
      if free == {} then a == 0
      else 0 < a && a % PAGE == 0 && a / PAGE in free && forall p :: p in free ==> a / PAGE <= p
    case AllocRun(n, a) =>
      if n == 0 || !HasRun(free, n) then a == 0
      else 0 < a && a % PAGE == 0 && RunIn(free, a / PAGE, n)
           && forall s :: RunIn(free, s, n) ==> a / PAGE <= s
    case _ => true
  }

  // ---------------------------------------------------------------- frames taken from the bottom

  ghost predicate Lowest(free: set<int>, f: int) {
    f in free && forall q :: q in free ==> f <= q
  }

  /** How many free frames lie below f. */
  ghost function Rank(free: set<int>, f: int): nat {
    |Below(free, f)|
  }

  ghost function Below(free: set<int>, f: int): set<int> {
    set q | q in free && q < f
  }

  /** What has gone from the free frames lies below what is left: allocation takes the lowest first. */
  ghost predicate Skimmed(free: set<int>, free': set<int>) {
    SkimSeal(free, free').Intact?
  }

  ghost function SkimSeal(free: set<int>, free': set<int>): Seal {
    if forall k {:trigger Open(TheOrder, k)} :: Open(TheOrder, k) ==>
      free' <= free && forall x, y :: x in free - free' && y in free' ==> x < y
    then Intact else Broken
  }

  lemma SkimNothing(free: set<int>)
    ensures Skimmed(free, free)
  {}

  lemma SkimLowest(free: set<int>, f: int)
    requires Lowest(free, f)
    ensures Skimmed(free, free - {f})
  {}

  lemma SkimTwice(f: set<int>, f1: set<int>, f2: set<int>)
    requires Skimmed(f, f1) && Skimmed(f1, f2)
    ensures Skimmed(f, f2)
  {
    assert Open(TheOrder, 0);
    forall x, y | x in f - f2 && y in f2 ensures x < y {
      if x in f1 {
        assert x in f1 - f2;
      } else {
        assert x in f - f1 && y in f1;
      }
    }
  }

  /** The next frame to go is told by how many have gone. */
  lemma SkimRank(free: set<int>, free': set<int>, f: int)
    requires Skimmed(free, free')
    ensures |free'| <= |free|
    ensures Lowest(free', f) <==> f in free && Rank(free, f) == |free| - |free'|
  {
    assert Open(TheOrder, 0);
    var gone := free - free';
    assert free == gone + free' && |gone| == |free| - |free'|;
    if Lowest(free', f) {
      assert Below(free, f) == gone;
    }
    if f in free && Rank(free, f) == |gone| {
      if f in gone {
        assert Below(free, f) <= gone - {f};
        SubsetSize(Below(free, f), gone - {f});
        assert false;
      }
      assert gone <= Below(free, f);
      SameSize(gone, Below(free, f));
    }
  }

  lemma SameSize(part: set<int>, whole: set<int>)
    requires part <= whole && |part| == |whole|
    ensures part == whole
  {
    assert whole == part + (whole - part);
  }

  ghost predicate HasRun(free: set<int>, n: nat) {
    exists s :: RunIn(free, s, n)
  }

  ghost predicate RunIn(free: set<int>, s: int, n: nat) {
    Range(s, s + n) <= free
  }

  ghost function After(free: set<int>, e: Event): set<int> {
    if e.IsAlloc() then free - e.Pages() else free + e.Pages()
  }

  ghost function Held(held: set<int>, e: Event): set<int> {
    if e.IsAlloc() then held + e.Pages() else held - e.Pages()
  }

  /** A run from `free` by clients that hold `held` and free only what they hold. */
  ghost predicate Run(free: set<int>, held: set<int>, es: seq<Event>)
    decreases es
  {
    es == [] ||
    (&& Allowed(free, es[0])
     && (!es[0].IsAlloc() ==> es[0].Pages() <= held)
     && Run(After(free, es[0]), Held(held, es[0]), es[1..]))
  }

  ghost function FreeAfter(free: set<int>, es: seq<Event>): set<int>
    decreases es
  {
    if es == [] then free else FreeAfter(After(free, es[0]), es[1..])
  }

  ghost function HeldAfter(held: set<int>, es: seq<Event>): set<int>
    decreases es
  {
    if es == [] then held else HeldAfter(Held(held, es[0]), es[1..])
  }

  lemma AllocatedWasFree(free: set<int>, e: Event)
    requires Allowed(free, e) && e.IsAlloc()
    ensures e.Pages() <= free
  {}

  /** Over every run the pages split into free and held, none lost, none in both. */
  lemma {:induction false} PagesConserved(free: set<int>, held: set<int>, es: seq<Event>)
    requires Run(free, held, es) && free !! held
    ensures FreeAfter(free, es) !! HeldAfter(held, es)
    ensures FreeAfter(free, es) + HeldAfter(held, es) == free + held
    ensures |FreeAfter(free, es)| + |HeldAfter(held, es)| == |free| + |held|
    decreases es
  {
    if es != [] {
      var e := es[0];
      if e.IsAlloc() {
        AllocatedWasFree(free, e);
      }
      assert After(free, e) + Held(held, e) == free + held;
      PagesConserved(After(free, e), Held(held, e), es[1..]);
    }
    assert |free + held| == |free| + |held|;
    var f, h := FreeAfter(free, es), HeldAfter(held, es);
    assert |f + h| == |f| + |h|;
  }

  /** No page is handed out while it is held: the pages of any allocation in a run are free at that point. */
  lemma {:induction false} NeverHandedOutTwice(free: set<int>, held: set<int>, es: seq<Event>, k: nat)
    requires Run(free, held, es) && free !! held
    requires k < |es| && es[k].IsAlloc()
    ensures es[k].Pages() !! HeldAfter(held, es[..k])
    ensures es[k].Pages() <= FreeAfter(free, es[..k])
    decreases es
  {
    if k == 0 {
      AllocatedWasFree(free, es[0]);
    } else {
      var e := es[0];
      if e.IsAlloc() {
        AllocatedWasFree(free, e);
      }
      assert es[..k][1..] == es[1..][..k - 1] && es[..k][0] == e;
      NeverHandedOutTwice(After(free, e), Held(held, e), es[1..], k - 1);
    }
  }

  /** What the run search knows at position `pos`: the `found` bits before it are clear, the bit
      before those (if any) is set, and no run of `count` lies wholly below `pos`. */
  ghost predicate Scanned(u: seq<bool>, pos: int, found: int, count: int) {
    && 0 <= found < count && found <= pos <= |u|
    && (forall i :: pos - found <= i < pos ==> !u[i])
    && (found < pos ==> u[pos - found - 1])
    && (forall s :: s + count <= pos ==> !ClearRun(u, s, count))
  }

  lemma ScanBit(u: seq<bool>, pos: int, found: int, count: int)
    requires Scanned(u, pos, found, count) && pos < |u|
    ensures u[pos] ==> Scanned(u, pos + 1, 0, count)
    ensures !u[pos] && found + 1 < count ==> Scanned(u, pos + 1, found + 1, count)
    ensures !u[pos] && found + 1 == count ==> LowestRun(u, pos + 1 - count, count)
  {
    forall s | s + count == pos + 1 && (u[pos] || found + 1 < count)
      ensures !ClearRun(u, s, count)
    {
      if !u[pos] && 0 <= s {
        assert u[pos - found - 1] && s <= pos - found - 1 < s + count;
      }
    }
  }

  lemma SkipByte(u: seq<bool>, pos: int, found: int, count: int)
    requires Scanned(u, pos, found, count) && pos + 8 <= |u|
    requires forall i :: pos <= i < pos + 8 ==> u[i]
    ensures Scanned(u, pos + 8, 0, count)
  {
    forall s | s + count <= pos + 8
      ensures !ClearRun(u, s, count)
    {
      if pos < s + count && 0 <= s {
        assert u[s + count - 1];
      }
    }
  }
}
