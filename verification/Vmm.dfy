/** Two-level 32-bit paging, src/mm/vmm.c. Physical memory is a sequence of 2^20 frames of
    1024 words. The code writes the tables twice over: by physical address while paging is
    off, and through directory slot 1023 once it is on. */
module Vmm {
  import opened Kernel
  import opened Pmm

  type Word = x: int | 0 <= x < TWO32
  type Memory = seq<seq<Word>>

  const FRAMES := 0x10_0000
  const ENTRIES := 1024
  const RECURSIVE_SLOT := 1023
  const WINDOW := 0xFFC0_0000
  const WINDOW_DIR := 0xFFFF_F000

  ghost predicate WellFormed(m: Memory) {
    |m| == FRAMES && forall f :: 0 <= f < FRAMES ==> |m[f]| == ENTRIES
  }

  /** PAGE_FLAG_PRESENT is bit 0; bits 12 and up hold the frame number. */
  predicate Present(w: Word) {
    w % 2 == 1
  }

  function FrameOf(w: Word): (f: nat)
    ensures f < FRAMES
  {
    w / PAGE
  }

  function PdIndex(va: Word): (i: nat)
    ensures i < ENTRIES
  {
    va / 0x40_0000
  }

  function PtIndex(va: Word): (i: nat)
    ensures i < ENTRIES
  {
    va / PAGE % ENTRIES
  }

  // ---------------------------------------------------------------- the hardware walk

  /** The physical address the processor reaches for `va` with the directory in frame `dir`. */
  function Walk(m: Memory, dir: nat, va: Word): (r: Option<Word>)
    requires WellFormed(m) && dir < FRAMES
    ensures r.Some? ==> r.value % PAGE == va % PAGE
  {
    var pde := m[dir][PdIndex(va)];
    if !Present(pde) then None else
    var pte := m[FrameOf(pde)][PtIndex(va)];
    if !Present(pte) then None else Some(FrameOf(pte) * PAGE + va % PAGE)
  }

  /** The word at physical address pa. */
  function Load(m: Memory, pa: Word): Word
    requires WellFormed(m)
  {
    m[pa / PAGE][pa % PAGE / 4]
  }

  function Store(m: Memory, pa: Word, w: Word): (m': Memory)
    requires WellFormed(m)
    ensures WellFormed(m')
  {
    Put(m, pa / PAGE, pa % PAGE / 4, w)
  }

  function WithEntry(table: seq<Word>, i: nat, w: Word): seq<Word>
    requires i < |table|
  {
    table[i := w]
  }

  /** Entry i of frame f replaced. */
  function Put(m: Memory, f: nat, i: nat, w: Word): (m': Memory)
    requires WellFormed(m) && f < FRAMES && i < ENTRIES
    ensures WellFormed(m')
  {
    m[f := WithEntry(m[f], i, w)]
  }

  /** Slot 1023 of the directory names the directory itself. */
  ghost predicate SelfMapped(m: Memory, dir: nat) {
    && WellFormed(m) && dir < FRAMES
    && Present(m[dir][RECURSIVE_SLOT]) && FrameOf(m[dir][RECURSIVE_SLOT]) == dir
  }

  /** Where 0xFFFFF000 + 4i leads: entry i of the directory. */
  lemma WindowReachesDirectory(m: Memory, dir: nat, i: nat)
    requires SelfMapped(m, dir) && i < ENTRIES
    ensures Walk(m, dir, WINDOW_DIR + 4 * i) == Some(dir * PAGE + 4 * i)
    ensures Load(m, dir * PAGE + 4 * i) == m[dir][i]
    ensures forall w: Word :: Store(m, dir * PAGE + 4 * i, w) == Put(m, dir, i, w)
  {
    var va: Word := WINDOW_DIR + 4 * i;
    assert PdIndex(va) == RECURSIVE_SLOT && PtIndex(va) == RECURSIVE_SLOT && va % PAGE == 4 * i;
    WordAddress(m, dir, i);
  }

  /** Where 0xFFC00000 + (i << 12) + 4j leads: entry j of the table in directory entry i. */
  lemma WindowReachesTable(m: Memory, dir: nat, i: nat, j: nat)
    requires SelfMapped(m, dir) && i < ENTRIES && j < ENTRIES
    requires Present(m[dir][i])
    ensures Walk(m, dir, WINDOW + PAGE * i + 4 * j) == Some(FrameOf(m[dir][i]) * PAGE + 4 * j)
    ensures Load(m, FrameOf(m[dir][i]) * PAGE + 4 * j) == m[FrameOf(m[dir][i])][j]
    ensures forall w: Word :: Store(m, FrameOf(m[dir][i]) * PAGE + 4 * j, w) == Put(m, FrameOf(m[dir][i]), j, w)
  {
    WindowAddress(i, j);
    WordAddress(m, FrameOf(m[dir][i]), j);
  }

  lemma WindowAddress(i: nat, j: nat)
    requires i < ENTRIES && j < ENTRIES
    ensures var va: Word := WINDOW + PAGE * i + 4 * j;
            PdIndex(va) == RECURSIVE_SLOT && PtIndex(va) == i && va % PAGE == 4 * j
  {}

  lemma WordAddress(m: Memory, f: nat, j: nat)
    requires WellFormed(m) && f < FRAMES && j < ENTRIES
    ensures Load(m, f * PAGE + 4 * j) == m[f][j]
    ensures forall w: Word :: Store(m, f * PAGE + 4 * j, w) == Put(m, f, j, w)
  {
    var pa: Word := f * PAGE + 4 * j;
    assert pa / PAGE == f && pa % PAGE / 4 == j;
  }

  // ---------------------------------------------------------------- the abstract map

  datatype Mapping = Mapping(frame: nat, flags: nat)

  /** The abstract address space: the frame and flags of virtual page `page`, if mapped. */
  function Translate(m: Memory, dir: nat, page: nat): Option<Mapping>
    requires WellFormed(m) && dir < FRAMES && page < FRAMES
  {
    var pde := m[dir][page / ENTRIES];
    if !Present(pde) then None else
    var pte := m[FrameOf(pde)][page % ENTRIES];
    if !Present(pte) then None else Some(Mapping(FrameOf(pte), pte % PAGE))
  }

  /** The hardware walk and the abstract map say the same. */
  lemma WalkIsTranslate(m: Memory, dir: nat, va: Word)
    requires WellFormed(m) && dir < FRAMES
    ensures Walk(m, dir, va) ==
            match Translate(m, dir, va / PAGE)
            case None => None
            case Some(t) => Some(t.frame * PAGE + va % PAGE)
  {
    assert va / PAGE / ENTRIES == va / 0x40_0000;
  }

  /** The tables are a proper tree: present entries below slot 1023 name distinct frames, none of
      them the directory. */
  ghost predicate Tree(m: Memory, dir: nat) {
    && WellFormed(m) && dir < FRAMES
    && (forall i :: 0 <= i < RECURSIVE_SLOT && Present(m[dir][i]) ==> FrameOf(m[dir][i]) != dir)
    && (forall i, j :: 0 <= i < j < RECURSIVE_SLOT && Present(m[dir][i]) && Present(m[dir][j]) ==>
                       FrameOf(m[dir][i]) != FrameOf(m[dir][j]))
  }

  /** The directory slots in use below slot 1023. */
  ghost function Tables(m: Memory, dir: nat): (r: set<int>)
    requires WellFormed(m) && dir < FRAMES
    ensures forall i {:trigger i in r} :: i in r <==> 0 <= i < RECURSIVE_SLOT && Present(m[dir][i])
  {
    set i | 0 <= i < RECURSIVE_SLOT && Present(m[dir][i])
  }

  function Zeros(n: nat): seq<Word> {
    seq(n, _ => 0)
  }

  /** A zeroed table in frame t, entered in slot i. */
  function Install(m: Memory, dir: nat, i: nat, t: nat): (m': Memory)
    requires WellFormed(m) && dir < FRAMES && i < RECURSIVE_SLOT && t < FRAMES
    ensures WellFormed(m')
  {
    m[dir := WithEntry(m[dir], i, t * PAGE + 3)][t := Zeros(ENTRIES)]
  }

  /** The directory entry of a new table names its frame and is present and writable. */
  lemma InstalledEntry(m: Memory, dir: nat, i: nat, t: nat)
    requires WellFormed(m) && dir < FRAMES && i < RECURSIVE_SLOT && t < FRAMES && t != dir
    ensures var e := Install(m, dir, i, t)[dir][i];
            e / PAGE == t && e % 2 == 1 && e / 2 % 2 == 1 && e % PAGE < 4
    ensures forall j :: 0 <= j < ENTRIES ==> Install(m, dir, i, t)[t][j] == 0
  {}

  /** The entry vmm_map_page writes: PTE_FLAGS_MASK keeps the low three bits. */
  function NewPte(phys: Word, flags: nat): Word {
    AlignDown(phys, PAGE) + flags % 8
  }

  /** Bit by bit: the frame of `phys`, and of the flags PRESENT, RW and USER, no other. */
  lemma EntryBits(phys: Word, flags: nat)
    ensures NewPte(phys, flags) / PAGE == phys / PAGE && NewPte(phys, flags) % PAGE < 8
    ensures NewPte(phys, flags) % 2 == flags % 2 && NewPte(phys, flags) / 2 % 2 == flags / 2 % 2
    ensures NewPte(phys, flags) / 4 % 2 == flags / 4 % 2
  {
    var q, r := phys / PAGE, flags % 8;
    LowBits(512 * q, r);
    LowBits(flags / 8, r);
    assert NewPte(phys, flags) == PAGE * q + r == 8 * (512 * q) + r && flags == 8 * (flags / 8) + r;
  }

  lemma LowBits(m: nat, r: nat)
    requires r < 8
    ensures (8 * m + r) % 2 == r % 2 && (8 * m + r) / 2 % 2 == r / 2 % 2 && (8 * m + r) / 4 % 2 == r / 4 % 2
  {
    assert (8 * m + r) / 2 == 4 * m + r / 2 && (8 * m + r) / 4 == 2 * m + r / 4;
  }

  /** What mapping a page does to memory; t is the frame for a table if one has to be installed. */
  function Mapped(m: Memory, dir: nat, va: Word, phys: Word, flags: nat, t: nat): (m': Memory)
    requires WellFormed(m) && dir < FRAMES && va < WINDOW && t < FRAMES
    ensures WellFormed(m')
  {
    var m1 := if Present(m[dir][PdIndex(va)]) then m else Install(m, dir, PdIndex(va), t);
    Put(m1, FrameOf(m1[dir][PdIndex(va)]), PtIndex(va), NewPte(phys, flags))
  }

  function Unmapped(m: Memory, dir: nat, va: Word): (m': Memory)
    requires WellFormed(m) && dir < FRAMES
    ensures WellFormed(m')
  {
    Put(m, FrameOf(m[dir][PdIndex(va)]), PtIndex(va), 0)
  }

  /** A page is mapped to another frame than the one asked for. */
  predicate Conflict(m: Memory, dir: nat, va: Word, phys: Word)
    requires WellFormed(m) && dir < FRAMES
  {
    var t := Translate(m, dir, va / PAGE);
    t.Some? && t.value.frame != FrameOf(phys)
  }

  /** Two address spaces agree on every page below the window except those of [lo, hi). */
  ghost predicate SameExcept(m: Memory, m': Memory, dir: nat, lo: int, hi: int)
    requires WellFormed(m) && WellFormed(m') && dir < FRAMES
  {
    forall page :: 0 <= page < WINDOW / PAGE && !(lo <= page < hi) ==>
      Translate(m', dir, page) == Translate(m, dir, page)
  }

  /** What page `page` should translate to after mapping it with `flags`. */
  function MappingFor(phys: Word, flags: nat): Option<Mapping> {
    if flags % 2 == 1 then Some(Mapping(FrameOf(phys), flags % 8)) else None
  }

  /** A frame not yet part of the tree is safe to install as a table. */
  ghost predicate FreshTable(m: Memory, dir: nat, t: nat)
    requires WellFormed(m) && dir < FRAMES
  {
    t < FRAMES && t != dir && forall i :: 0 <= i < RECURSIVE_SLOT && Present(m[dir][i]) ==> FrameOf(m[dir][i]) != t
  }

  lemma InstallKeeps(m: Memory, dir: nat, i: nat, t: nat)
    requires Tree(m, dir) && i < RECURSIVE_SLOT && !Present(m[dir][i]) && FreshTable(m, dir, t)
    ensures Tree(Install(m, dir, i, t), dir)
    ensures SameExcept(m, Install(m, dir, i, t), dir, 0, 0)
    ensures Tables(Install(m, dir, i, t), dir) == Tables(m, dir) + {i}
  {
    InstallDirectory(m, dir, i, t);
    forall page | 0 <= page < WINDOW / PAGE
      ensures Translate(Install(m, dir, i, t), dir, page) == Translate(m, dir, page)
    {
      InstallMapsNothing(m, dir, i, t, page);
    }
  }

  /** The new entry names frame t; the others are as before. */
  lemma InstallDirectory(m: Memory, dir: nat, i: nat, t: nat)
    requires WellFormed(m) && dir < FRAMES && i < RECURSIVE_SLOT && FreshTable(m, dir, t)
    ensures var m' := Install(m, dir, i, t);
            && m'[dir] == m[dir][i := t * PAGE + 3] && m'[t] == Zeros(ENTRIES)
            && Present(m'[dir][i]) && FrameOf(m'[dir][i]) == t
  {
    TableEntry(t);
  }

  lemma TableEntry(t: nat)
    requires t < FRAMES
    ensures Present(t * PAGE + 3) && FrameOf(t * PAGE + 3) == t && (t * PAGE + 3) % PAGE == 3
  {}

  lemma InstallMapsNothing(m: Memory, dir: nat, i: nat, t: nat, page: nat)
    requires Tree(m, dir) && i < RECURSIVE_SLOT && !Present(m[dir][i]) && FreshTable(m, dir, t)
    requires page < WINDOW / PAGE
    ensures Translate(Install(m, dir, i, t), dir, page) == Translate(m, dir, page)
  {
    InstallDirectory(m, dir, i, t);
    var m' := Install(m, dir, i, t);
    var k := page / ENTRIES;
    assert k < RECURSIVE_SLOT;
    if k == i {
      assert m'[t][page % ENTRIES] == 0;
    } else if Present(m[dir][k]) {
      assert m'[dir][k] == m[dir][k] && m'[FrameOf(m[dir][k])] == m[FrameOf(m[dir][k])];
    }
  }

  /** Writing one entry of one table moves one page only. */
  lemma PutKeeps(m: Memory, dir: nat, va: Word, w: Word)
    requires Tree(m, dir) && va < WINDOW && Present(m[dir][PdIndex(va)])
    ensures var m' := Put(m, FrameOf(m[dir][PdIndex(va)]), PtIndex(va), w);
            && Tree(m', dir)
            && m'[dir] == m[dir]
            && SameExcept(m, m', dir, va / PAGE, va / PAGE + 1)
            && Translate(m', dir, va / PAGE) == (if Present(w) then Some(Mapping(FrameOf(w), w % PAGE)) else None)
            && Tables(m', dir) == Tables(m, dir)
  {
    var t := FrameOf(m[dir][PdIndex(va)]);
    var m' := Put(m, t, PtIndex(va), w);
    assert m'[dir] == m[dir];
    assert va / PAGE / ENTRIES == PdIndex(va);
    forall page | 0 <= page < WINDOW / PAGE && page != va / PAGE
      ensures Translate(m', dir, page) == Translate(m, dir, page)
    {
      if Present(m[dir][page / ENTRIES]) && FrameOf(m[dir][page / ENTRIES]) == t {
        assert page / ENTRIES == PdIndex(va) && page % ENTRIES != PtIndex(va);
      }
    }
  }

  /** Mapping a page gives that page its new translation and leaves every other one alone. */
  lemma MappedKeeps(m: Memory, dir: nat, va: Word, phys: Word, flags: nat, t: nat)
    requires Tree(m, dir) && va < WINDOW && t < FRAMES
    requires !Present(m[dir][PdIndex(va)]) ==> FreshTable(m, dir, t)
    ensures Tree(Mapped(m, dir, va, phys, flags, t), dir)
    ensures SameExcept(m, Mapped(m, dir, va, phys, flags, t), dir, va / PAGE, va / PAGE + 1)
    ensures Translate(Mapped(m, dir, va, phys, flags, t), dir, va / PAGE) == MappingFor(phys, flags)
    ensures Tables(Mapped(m, dir, va, phys, flags, t), dir) ==
            Tables(m, dir) + if Present(m[dir][PdIndex(va)]) then {} else {PdIndex(va)}
  {
    var m1 := if Present(m[dir][PdIndex(va)]) then m else Install(m, dir, PdIndex(va), t);
    if !Present(m[dir][PdIndex(va)]) {
      InstallKeeps(m, dir, PdIndex(va), t);
    }
    NewPteFields(phys, flags);
    PutKeeps(m1, dir, va, NewPte(phys, flags));
  }

  lemma NewPteFields(phys: Word, flags: nat)
    ensures var w := NewPte(phys, flags);
            FrameOf(w) == FrameOf(phys) && w % PAGE == flags % 8 && (Present(w) <==> flags % 2 == 1)
  {}

  lemma SlotKeeps(m: Memory, dir: nat)
    requires Tree(m, dir)
    ensures var m' := Put(m, dir, RECURSIVE_SLOT, dir * PAGE + 3);
            && Tree(m', dir) && SelfMapped(m', dir) && SameExcept(m, m', dir, 0, 0)
            && forall i :: 0 <= i < RECURSIVE_SLOT ==> m'[dir][i] == m[dir][i]
  {
    var m' := Put(m, dir, RECURSIVE_SLOT, dir * PAGE + 3);
    TableEntry(dir);
    forall page | 0 <= page < WINDOW / PAGE
      ensures Translate(m', dir, page) == Translate(m, dir, page)
    {
      SlotBelow(page);
      var pde := m[dir][page / ENTRIES];
      assert m'[dir][page / ENTRIES] == pde;
      assert Present(pde) ==> m'[FrameOf(pde)] == m[FrameOf(pde)];
    }
  }

  lemma SlotBelow(page: nat)
    requires page < WINDOW / PAGE
    ensures page / ENTRIES < RECURSIVE_SLOT
  {}

  /** Frame t with its first n words cleared: the memset of a new table, n words in. */
  ghost function Cleared(m: Memory, t: nat, n: nat): (m': Memory)
    requires WellFormed(m) && t < FRAMES && n <= ENTRIES
    ensures WellFormed(m')
  {
    m[t := Zeros(n) + m[t][n..]]
  }

  lemma ClearedStep(m: Memory, t: nat, n: nat)
    requires WellFormed(m) && t < FRAMES && n < ENTRIES
    ensures Put(Cleared(m, t, n), t, n, 0) == Cleared(m, t, n + 1)
  {
    assert WithEntry(Zeros(n) + m[t][n..], n, 0) == Zeros(n + 1) + m[t][n + 1..];
  }

  lemma ClearedEnds(m: Memory, t: nat)
    requires WellFormed(m) && t < FRAMES
    ensures Cleared(m, t, 0) == m
    ensures Cleared(m, t, ENTRIES) == m[t := Zeros(ENTRIES)]
  {
    assert Zeros(0) + m[t][0..] == m[t];
    assert Zeros(ENTRIES) + m[t][ENTRIES..] == Zeros(ENTRIES);
  }

  lemma FrameMoves(free: set<int>, tables: set<int>, t: int, i: int)
    requires t in free && i !in tables
    ensures |free - {t}| + |tables + {i}| == |free| + |tables|
  {}

  lemma Installed(m: Memory, dir: nat, i: nat, t: nat)
    requires Tree(m, dir) && i < RECURSIVE_SLOT && FreshTable(m, dir, t)
    ensures var m' := Install(m, dir, i, t);
            && m'[dir] == WithEntry(m[dir], i, t * PAGE + 3)
            && Present(m'[dir][i]) && FrameOf(m'[dir][i]) == t && m'[t] == Zeros(ENTRIES)
            && m'[dir][RECURSIVE_SLOT] == m[dir][RECURSIVE_SLOT]
  {}

  /** Mapping touches the directory only to enter a new table. */
  lemma MappedDirectory(m: Memory, dir: nat, va: Word, phys: Word, flags: nat, t: nat)
    requires Tree(m, dir) && va < WINDOW && t < FRAMES
    requires !Present(m[dir][PdIndex(va)]) ==> FreshTable(m, dir, t)
    ensures Mapped(m, dir, va, phys, flags, t)[dir] ==
            if Present(m[dir][PdIndex(va)]) then m[dir] else WithEntry(m[dir], PdIndex(va), t * PAGE + 3)
  {
    if !Present(m[dir][PdIndex(va)]) {
      Installed(m, dir, PdIndex(va), t);
    }
  }

  /** The directory and every table lie outside the set `free`. */
  ghost predicate Owned(m: Memory, dir: nat, free: set<int>)
    requires WellFormed(m) && dir < FRAMES
  {
    dir !in free && forall i :: 0 <= i < RECURSIVE_SLOT && Present(m[dir][i]) ==> FrameOf(m[dir][i]) !in free
  }

  /** The frames left free when a map operation takes frame t for a table. */
  ghost function FreeLeft(m: Memory, dir: nat, va: Word, free: set<int>, t: nat): set<int>
    requires WellFormed(m) && dir < FRAMES
  {
    if Present(m[dir][PdIndex(va)]) then free else free - {t}
  }

  /** A map operation keeps the tables out of the free frames and loses no frame. */
  lemma MappedOwned(m: Memory, dir: nat, va: Word, phys: Word, flags: nat, t: nat, free: set<int>)
    requires Tree(m, dir) && va < WINDOW && t < FRAMES && Owned(m, dir, free)
    requires !Present(m[dir][PdIndex(va)]) ==> FreshTable(m, dir, t) && t in free
    ensures Owned(Mapped(m, dir, va, phys, flags, t), dir, FreeLeft(m, dir, va, free, t))
    ensures |FreeLeft(m, dir, va, free, t)| + |Tables(Mapped(m, dir, va, phys, flags, t), dir)|
            == |free| + |Tables(m, dir)|
  {
    MappedDirectory(m, dir, va, phys, flags, t);
    MappedKeeps(m, dir, va, phys, flags, t);
    if !Present(m[dir][PdIndex(va)]) {
      FrameMoves(free, Tables(m, dir), t, PdIndex(va));
      assert FrameOf(t * PAGE + 3) == t;
    } else {
      assert Tables(m, dir) + {} == Tables(m, dir);
    }
  }

  /** The tables are a tree, the directory and every table lie outside the free frames, and the
      window is there once paging is on. */
  ghost predicate Proper(m: Memory, dir: nat, free: set<int>, paging: bool)
    requires WellFormed(m) && dir < FRAMES
  {
    Tree(m, dir) && Owned(m, dir, free) && (paging ==> SelfMapped(m, dir))
  }

  ghost function TablesSeal(m: Memory, dir: nat, free: set<int>, paging: bool): Seal
    requires WellFormed(m) && dir < FRAMES
  {
    if forall k {:trigger Open(TheTables, k)} :: Open(TheTables, k) ==> Proper(m, dir, free, paging)
    then Intact else Broken
  }

  lemma FewerFree(m: Memory, dir: nat, free: set<int>, free': set<int>, paging: bool)
    requires WellFormed(m) && dir < FRAMES && TablesSeal(m, dir, free, paging).Intact? && free' <= free
    ensures TablesSeal(m, dir, free', paging).Intact?
  {
    assert Open(TheTables, 0);
  }

  /** What both branches of vmm_map_page promise: m and free before, m' and free' after, and the
      frame t taken for a table if the directory had none. */
  ghost predicate MapStep(m: Memory, m': Memory, dir: nat, free: set<int>, free': set<int>,
                          va: Word, phys: Word, flags: nat, st: Status, t: nat)
    requires WellFormed(m) && dir < FRAMES && va < WINDOW
  {
    && t < FRAMES && WellFormed(m')
    && (st == Ok || st == OutOfMemory || st == AlreadyMapped)
    && (st == OutOfMemory <==> !Present(m[dir][PdIndex(va)]) && free == {})
    && (st != Ok ==> m' == m && free' == free)
    && (st == Ok ==> m' == Mapped(m, dir, va, phys, flags, t) && free' == FreeLeft(m, dir, va, free, t))
    && (st == Ok && !Present(m[dir][PdIndex(va)]) ==> t in free && FreshTable(m, dir, t))
  }

  /** Every table of m' was a table of m or came from the frames of `free`. */
  ghost predicate TablesFrom(m: Memory, m': Memory, dir: nat, free: set<int>)
    requires WellFormed(m) && WellFormed(m') && dir < FRAMES
  {
    forall i :: 0 <= i < RECURSIVE_SLOT && Present(m'[dir][i]) ==>
      (Present(m[dir][i]) && FrameOf(m'[dir][i]) == FrameOf(m[dir][i])) || FrameOf(m'[dir][i]) in free
  }

  /** What such a step keeps. */
  ghost predicate StepKept(m: Memory, m': Memory, dir: nat, free: set<int>, free': set<int>)
    requires WellFormed(m) && WellFormed(m') && dir < FRAMES
  {
    StepSeal(m, m', dir, free, free').Intact?
  }

  ghost function StepSeal(m: Memory, m': Memory, dir: nat, free: set<int>, free': set<int>): Seal
    requires WellFormed(m) && WellFormed(m') && dir < FRAMES
  {
    if forall k {:trigger Open(TheStep, k)} :: Open(TheStep, k) ==> Kept(m, m', dir, free, free')
    then Intact else Broken
  }

  ghost predicate Kept(m: Memory, m': Memory, dir: nat, free: set<int>, free': set<int>)
    requires WellFormed(m) && WellFormed(m') && dir < FRAMES
  {
    && Tree(m', dir) && Owned(m', dir, free')
    && m'[dir][RECURSIVE_SLOT] == m[dir][RECURSIVE_SLOT]
    && free' <= free && Tables(m, dir) <= Tables(m', dir)
    && |free'| + |Tables(m', dir)| == |free| + |Tables(m, dir)|
    && TablesFrom(m, m', dir, free)
  }

  /** n frames have been handed out for data; all others are still free or have become page tables. */
  ghost predicate FramesMoved(m: Memory, m': Memory, dir: nat, free: set<int>, free': set<int>, n: int)
    requires WellFormed(m) && WellFormed(m') && dir < FRAMES
  {
    MovedSeal(m, m', dir, free, free', n).Intact?
  }

  ghost function MovedSeal(m: Memory, m': Memory, dir: nat, free: set<int>, free': set<int>, n: int): Seal
    requires WellFormed(m) && WellFormed(m') && dir < FRAMES
  {
    if forall k {:trigger Open(TheStep, k)} :: Open(TheStep, k) ==>
      && free' <= free && Tables(m, dir) <= Tables(m', dir)
      && |free'| + |Tables(m', dir)| + n == |free| + |Tables(m, dir)|
    then Intact else Broken
  }

  lemma SlotOf(va: Word)
    requires va < WINDOW
    ensures va / PAGE / ENTRIES == PdIndex(va) < RECURSIVE_SLOT
  {}

  /** What one map operation does to the tables: it fails for want of memory exactly when the slot
      has no table and no frame is free, and takes a frame exactly when the slot has none. */
  ghost predicate TablesStep(m: Memory, m': Memory, dir: nat, free: set<int>, free': set<int>, slot: int, st: Status)
    requires WellFormed(m) && WellFormed(m') && dir < FRAMES
  {
    && (st == OutOfMemory <==> slot !in Tables(m, dir) && free == {})
    && (st == Ok ==> Tables(m', dir) == Tables(m, dir) + {slot})
    && (st == Ok ==> |free'| + (if slot in Tables(m, dir) then 0 else 1) == |free|)
  }

  lemma MapStepKeeps(m: Memory, m': Memory, dir: nat, free: set<int>, free': set<int>,
                     va: Word, phys: Word, flags: nat, st: Status, t: nat)
    requires Tree(m, dir) && Owned(m, dir, free) && va < WINDOW
    requires MapStep(m, m', dir, free, free', va, phys, flags, st, t)
    ensures StepKept(m, m', dir, free, free')
    ensures SameExcept(m, m', dir, va / PAGE, va / PAGE + 1)
    ensures st == Ok ==> Translate(m', dir, va / PAGE) == MappingFor(phys, flags)
  {
    if st == Ok {
      MappedStep(m, dir, va, phys, flags, t, free);
      MappedKeeps(m, dir, va, phys, flags, t);
    } else {
      assert TablesFrom(m, m, dir, free);
    }
  }

  lemma MappedStep(m: Memory, dir: nat, va: Word, phys: Word, flags: nat, t: nat, free: set<int>)
    requires Tree(m, dir) && Owned(m, dir, free) && va < WINDOW && t < FRAMES
    requires !Present(m[dir][PdIndex(va)]) ==> FreshTable(m, dir, t) && t in free
    ensures Kept(m, Mapped(m, dir, va, phys, flags, t), dir, free, FreeLeft(m, dir, va, free, t))
  {
    var m' := Mapped(m, dir, va, phys, flags, t);
    MappedKeeps(m, dir, va, phys, flags, t);
    MappedDirectory(m, dir, va, phys, flags, t);
    MappedOwned(m, dir, va, phys, flags, t, free);
    TableEntry(t);
    if Present(m[dir][PdIndex(va)]) {
      SameTables(m, m', dir, free);
    } else {
      OneMoreTable(m, m', dir, PdIndex(va), t, free);
    }
  }

  lemma SameTables(m: Memory, m': Memory, dir: nat, free: set<int>)
    requires WellFormed(m) && WellFormed(m') && dir < FRAMES && m'[dir] == m[dir]
    ensures TablesFrom(m, m', dir, free) && Tables(m', dir) == Tables(m, dir)
  {}

  lemma OneMoreTable(m: Memory, m': Memory, dir: nat, i: nat, t: nat, free: set<int>)
    requires WellFormed(m) && WellFormed(m') && dir < FRAMES && i < RECURSIVE_SLOT && t < FRAMES && t in free
    requires m'[dir] == WithEntry(m[dir], i, t * PAGE + 3)
    ensures TablesFrom(m, m', dir, free) && m'[dir][RECURSIVE_SLOT] == m[dir][RECURSIVE_SLOT]
  {
    TableEntry(t);
    forall j | 0 <= j < RECURSIVE_SLOT && Present(m'[dir][j])
      ensures (Present(m[dir][j]) && FrameOf(m'[dir][j]) == FrameOf(m[dir][j])) || FrameOf(m'[dir][j]) in free
    {
      assert j != i ==> m'[dir][j] == m[dir][j];
    }
  }

  lemma MapStepTables(m: Memory, m': Memory, dir: nat, free: set<int>, free': set<int>,
                      va: Word, phys: Word, flags: nat, st: Status, t: nat)
    requires Tree(m, dir) && va < WINDOW
    requires MapStep(m, m', dir, free, free', va, phys, flags, st, t)
    ensures TablesStep(m, m', dir, free, free', va / PAGE / ENTRIES, st)
  {
    SlotOf(va);
    assert PdIndex(va) in Tables(m, dir) <==> Present(m[dir][PdIndex(va)]);
    if st == Ok {
      MappedKeeps(m, dir, va, phys, flags, t);
    }
  }

  /** All that a map operation keeps, from sealed tables to sealed tables. */
  lemma MapStepSealed(m: Memory, m': Memory, dir: nat, free: set<int>, free': set<int>,
                      va: Word, phys: Word, flags: nat, st: Status, t: nat, paging: bool)
    requires WellFormed(m) && dir < FRAMES && va < WINDOW && TablesSeal(m, dir, free, paging).Intact?
    requires MapStep(m, m', dir, free, free', va, phys, flags, st, t)
    ensures TablesSeal(m', dir, free', paging).Intact?
    ensures StepKept(m, m', dir, free, free')
    ensures SameExcept(m, m', dir, va / PAGE, va / PAGE + 1)
    ensures st == Ok ==> Translate(m', dir, va / PAGE) == MappingFor(phys, flags)
    ensures TablesStep(m, m', dir, free, free', va / PAGE / ENTRIES, st)
  {
    assert Open(TheTables, 0);
    MapStepKeeps(m, m', dir, free, free', va, phys, flags, st, t);
    MapStepTables(m, m', dir, free, free', va, phys, flags, st, t);
    StepProper(m, m', dir, free, free', paging);
  }

  lemma StepProper(m: Memory, m': Memory, dir: nat, free: set<int>, free': set<int>, paging: bool)
    requires WellFormed(m) && WellFormed(m') && dir < FRAMES
    requires Proper(m, dir, free, paging) && StepKept(m, m', dir, free, free')
    ensures Proper(m', dir, free', paging)
  {
    assert Open(TheStep, 0);
  }

  lemma StepsKept(m: Memory, m1: Memory, m2: Memory, dir: nat, f: set<int>, f1: set<int>, f2: set<int>)
    requires WellFormed(m) && WellFormed(m1) && WellFormed(m2) && dir < FRAMES
    requires StepKept(m, m1, dir, f, f1) && StepKept(m1, m2, dir, f1, f2)
    ensures StepKept(m, m2, dir, f, f2)
  {
    assert Open(TheStep, 0);
  }

  /** The directory slots that the pages of [page, page + count) lie under. */
  ghost function Slots(page: nat, count: nat): set<int> {
    if count == 0 then {} else Slots(page, count - 1) + {(page + count - 1) / ENTRIES}
  }

  /** They are the slots from that of the first page to that of the last. */
  lemma {:induction false} SlotsAre(page: nat, count: nat)
    requires 0 < count
    ensures Slots(page, count) == Range(page / ENTRIES, (page + count - 1) / ENTRIES + 1)
  {
    var last := (page + count - 1) / ENTRIES;
    if count == 1 {
      assert Slots(page, 0) == {};
    } else {
      SlotsAre(page, count - 1);
      var before := (page + count - 2) / ENTRIES;
      NextSlot(page + count - 2);
      assert Slots(page, count) == Range(page / ENTRIES, before + 1) + {last};
    }
  }

  lemma NextSlot(page: nat)
    ensures page / ENTRIES <= (page + 1) / ENTRIES <= page / ENTRIES + 1
  {}

  /** The page tables that mapping [page, page + count) has to install. */
  ghost function Missing(m: Memory, dir: nat, page: nat, count: nat): set<int>
    requires WellFormed(m) && dir < FRAMES
  {
    set i | i in Slots(page, count) && i !in Tables(m, dir)
  }

  lemma {:induction false} MissingGrows(m: Memory, dir: nat, page: nat, i: nat, count: nat)
    requires WellFormed(m) && dir < FRAMES && i <= count
    ensures Missing(m, dir, page, i) <= Missing(m, dir, page, count)
    ensures |Missing(m, dir, page, i)| <= |Missing(m, dir, page, count)|
  {
    if i < count {
      MissingGrows(m, dir, page, i, count - 1);
      assert Slots(page, count) == Slots(page, count - 1) + {(page + count - 1) / ENTRIES};
      SubsetSize(Missing(m, dir, page, count - 1), Missing(m, dir, page, count));
    }
  }

  /** After i pages the tables are the old ones and those the i pages needed, and as many frames are gone. */
  ghost predicate TablesCounted(m: Memory, m': Memory, dir: nat, free: set<int>, free': set<int>, page: nat, i: nat,
                                data: nat)
    requires WellFormed(m) && WellFormed(m') && dir < FRAMES
  {
    CountSeal(m, m', dir, free, free', page, i, data).Intact?
  }

  ghost function CountSeal(m: Memory, m': Memory, dir: nat, free: set<int>, free': set<int>, page: nat, i: nat,
                           data: nat): Seal
    requires WellFormed(m) && WellFormed(m') && dir < FRAMES
  {
    if forall k {:trigger Open(TheCount, k)} :: Open(TheCount, k) ==>
      && Tables(m', dir) == Tables(m, dir) + Slots(page, i)
      && |free'| + |Missing(m, dir, page, i)| + data == |free|
    then Intact else Broken
  }

  lemma CountedStart(m: Memory, dir: nat, free: set<int>, page: nat)
    requires WellFormed(m) && dir < FRAMES
    ensures TablesCounted(m, m, dir, free, free, page, 0, 0)
  {
    assert Slots(page, 0) == {};
    assert Missing(m, dir, page, 0) == {};
    assert Tables(m, dir) + {} == Tables(m, dir);
  }

  /** One more page: a frame goes exactly when its slot had no table. */
  lemma CountedStep(m: Memory, m1: Memory, m2: Memory, dir: nat, f: set<int>, f1: set<int>, f2: set<int>, page: nat,
                    i: nat, data: nat, more: nat)
    requires WellFormed(m) && WellFormed(m1) && WellFormed(m2) && dir < FRAMES
    requires TablesCounted(m, m1, dir, f, f1, page, i, data)
    requires Tables(m2, dir) == Tables(m1, dir) + {(page + i) / ENTRIES}
    requires |f2| + more + (if (page + i) / ENTRIES in Tables(m1, dir) then 0 else 1) == |f1|
    ensures TablesCounted(m, m2, dir, f, f2, page, i + 1, data + more)
  {
    assert Open(TheCount, 0);
    var slot := (page + i) / ENTRIES;
    assert Slots(page, i + 1) == Slots(page, i) + {slot};
    assert Tables(m2, dir) == Tables(m, dir) + Slots(page, i + 1);
    MissingNext(m, m1, dir, page, i);
  }

  /** The frames left after i pages, and those the next page takes for its table. */
  lemma CountedNext(m: Memory, m1: Memory, dir: nat, free: set<int>, free': set<int>, page: nat, i: nat, data: nat)
    requires WellFormed(m) && WellFormed(m1) && dir < FRAMES && TablesCounted(m, m1, dir, free, free', page, i, data)
    ensures |free'| == |free| - |Missing(m, dir, page, i)| - data
    ensures |Missing(m, dir, page, i + 1)| ==
            |Missing(m, dir, page, i)| + if (page + i) / ENTRIES in Tables(m1, dir) then 0 else 1
  {
    assert Open(TheCount, 0);
    MissingNext(m, m1, dir, page, i);
  }

  lemma MissingNext(m: Memory, m1: Memory, dir: nat, page: nat, i: nat)
    requires WellFormed(m) && WellFormed(m1) && dir < FRAMES && Tables(m1, dir) == Tables(m, dir) + Slots(page, i)
    ensures |Missing(m, dir, page, i + 1)| ==
            |Missing(m, dir, page, i)| + if (page + i) / ENTRIES in Tables(m1, dir) then 0 else 1
  {
    var slot := (page + i) / ENTRIES;
    var old', new' := Missing(m, dir, page, i), Missing(m, dir, page, i + 1);
    if slot in Tables(m1, dir) {
      assert new' == old';
    } else {
      assert new' == old' + {slot} && slot !in old';
    }
  }

  /** No page of [page, page + count) is mapped. */
  ghost predicate Clear(m: Memory, dir: nat, page: nat, count: nat)
    requires WellFormed(m) && dir < FRAMES && page + count <= FRAMES
  {
    forall k :: page <= k < page + count ==> Translate(m, dir, k) == None
  }

  /** The pages from `page` map `count` consecutive frames from `phys`. */
  ghost predicate MappedRange(m: Memory, dir: nat, page: nat, phys: Word, count: nat, flags: nat)
    requires WellFormed(m) && dir < FRAMES && page + count <= FRAMES && phys + count * PAGE <= TWO32
  {
    forall k :: page <= k < page + count ==> Translate(m, dir, k) == MappingFor(phys + (k - page) * PAGE, flags)
  }

  lemma RangeExtends(m: Memory, m0: Memory, m1: Memory, dir: nat, page: nat, phys: Word, i: nat, flags: nat)
    requires WellFormed(m) && WellFormed(m0) && WellFormed(m1) && dir < FRAMES
    requires page + i < WINDOW / PAGE && phys + (i + 1) * PAGE <= TWO32
    requires SameExcept(m, m0, dir, page, page + i) && MappedRange(m0, dir, page, phys, i, flags)
    requires SameExcept(m0, m1, dir, page + i, page + i + 1)
    requires Translate(m1, dir, page + i) == MappingFor(phys + i * PAGE, flags)
    ensures SameExcept(m, m1, dir, page, page + i + 1) && MappedRange(m1, dir, page, phys, i + 1, flags)
  {
    forall k | page <= k < page + i + 1
      ensures Translate(m1, dir, k) == MappingFor(phys + (k - page) * PAGE, flags)
    {
      assert k < page + i ==> Translate(m1, dir, k) == Translate(m0, dir, k);
    }
  }

  lemma RolledBack(m: Memory, m0: Memory, m1: Memory, dir: nat, page: nat, i: nat)
    requires WellFormed(m) && WellFormed(m0) && WellFormed(m1) && dir < FRAMES && page + i <= WINDOW / PAGE
    requires SameExcept(m, m0, dir, page, page + i) && SameExcept(m0, m1, dir, page, page + i)
    requires Clear(m, dir, page, i) && Clear(m1, dir, page, i)
    ensures SameExcept(m, m1, dir, 0, 0)
  {}

  // ---------------------------------------------------------------- the code

  class AddressSpace {
    const pmm: PageAllocator
    /** The frame of kernel_page_directory. */
    const dir: nat
    var mem: Memory
    var paging: bool

    /** The start of vmm_init: the directory is cleared, paging is off. */
    constructor (pmm: PageAllocator, dir: nat, mem: Memory)
      requires pmm.Valid() && WellFormed(mem) && dir < FRAMES && dir !in FreeSet(pmm.taken)
      ensures this.pmm == pmm && this.dir == dir && !paging && Valid()
      ensures this.mem == mem[dir := Zeros(ENTRIES)]
      ensures forall page :: 0 <= page < FRAMES ==> Translate(this.mem, dir, page) == None
    {
      this.pmm, this.dir, paging := pmm, dir, false;
      this.mem := mem[dir := Zeros(ENTRIES)];
    }

    /** The tables are proper, and the bitmap is valid. */
    ghost predicate Valid()
      reads this, pmm, pmm.bits
    {
      WellFormed(mem) && dir < FRAMES && pmm.Valid() && TablesSeal(mem, dir, FreeSet(pmm.taken), paging).Intact?
    }

    /** Translation of page `page` now. */
    ghost function At(page: nat): Option<Mapping>
      requires WellFormed(mem) && dir < FRAMES && page < FRAMES
      reads this
    {
      Translate(mem, dir, page)
    }

    /** The end of vmm_init: slot 1023 is made to name the directory, then paging goes on. */
    method EnablePaging()
      requires Valid() && !paging
      modifies this`mem, this`paging
      ensures Valid() && paging
      ensures SameExcept(old(mem), mem, dir, 0, 0)
    {
      assert Open(TheTables, 0);
      mem := Put(mem, dir, RECURSIVE_SLOT, dir * PAGE + 3);
      paging := true;
      SlotKeeps(old(mem), dir);
    }

    /** A word read at a virtual address, as the processor does it. */
    method ReadVirtual(va: Word) returns (w: Word)
      requires WellFormed(mem) && dir < FRAMES && Walk(mem, dir, va).Some?
      ensures w == Load(mem, Walk(mem, dir, va).value)
    {
      w := Load(mem, Walk(mem, dir, va).value);
    }

    /** A word written at a virtual address. */
    method WriteVirtual(va: Word, w: Word)
      requires WellFormed(mem) && dir < FRAMES && Walk(mem, dir, va).Some?
      modifies this`mem
      ensures mem == Store(old(mem), Walk(old(mem), dir, va).value, w)
    {
      mem := Store(mem, Walk(mem, dir, va).value, w);
    }

    /** pd[i] through 0xFFFFF000. */
    method ReadDirectory(i: nat) returns (w: Word)
      requires SelfMapped(mem, dir) && i < ENTRIES
      ensures w == mem[dir][i]
    {
      WindowReachesDirectory(mem, dir, i);
      w := ReadVirtual(WINDOW_DIR + 4 * i);
    }

    method WriteDirectory(i: nat, w: Word)
      requires SelfMapped(mem, dir) && i < ENTRIES
      modifies this`mem
      ensures mem == Put(old(mem), dir, i, w)
    {
      WindowReachesDirectory(mem, dir, i);
      WriteVirtual(WINDOW_DIR + 4 * i, w);
    }

    /** pt[j] of slot i through 0xFFC00000 + (i << 12). */
    method ReadTable(i: nat, j: nat) returns (w: Word)
      requires SelfMapped(mem, dir) && i < ENTRIES && j < ENTRIES && Present(mem[dir][i])
      ensures w == mem[FrameOf(mem[dir][i])][j]
    {
      WindowReachesTable(mem, dir, i, j);
      w := ReadVirtual(WINDOW + PAGE * i + 4 * j);
    }

    method WriteTable(i: nat, j: nat, w: Word)
      requires SelfMapped(mem, dir) && i < RECURSIVE_SLOT && j < ENTRIES && Present(mem[dir][i])
      modifies this`mem
      ensures mem == Put(old(mem), FrameOf(old(mem)[dir][i]), j, w)
    {
      WindowReachesTable(mem, dir, i, j);
      WriteVirtual(WINDOW + PAGE * i + 4 * j, w);
    }

    /** The table installation of the paging-on branch: enter the frame, then clear it through the window. */
    method InstallVirtual(i: nat, t: nat)
      requires SelfMapped(mem, dir) && i < RECURSIVE_SLOT && 0 < t < FRAMES && t != dir
      modifies this`mem
      ensures mem == Install(old(mem), dir, i, t)
    {
      WriteDirectory(i, t * PAGE + 3);
      ghost var m1 := mem;
      assert m1[dir] == WithEntry(old(mem)[dir], i, t * PAGE + 3);
      ClearedEnds(m1, t);
      for j := 0 to ENTRIES
        invariant mem == Cleared(m1, t, j)
      {
        assert mem[dir] == m1[dir];
        ClearedStep(m1, t, j);
        WriteTable(i, j, 0);
      }
    }

    /** The table installation of the paging-off branch, by physical address. */
    method InstallPhysical(i: nat, t: nat)
      requires WellFormed(mem) && dir < FRAMES && i < RECURSIVE_SLOT && 0 < t < FRAMES && t != dir
      modifies this`mem
      ensures mem == Install(old(mem), dir, i, t)
    {
      mem := Put(mem, dir, i, t * PAGE + 3);
      ghost var m1 := mem;
      ClearedEnds(m1, t);
      for j := 0 to ENTRIES
        invariant mem == Cleared(m1, t, j)
      {
        ClearedStep(m1, t, j);
        mem := Put(mem, t, j, 0);
      }
    }

    /** pmm_alloc_page for a new table: a frame no table occupies, or 0 when memory is exhausted. */
    method AllocTable() returns (ptPhys: nat)
      requires Valid()
      modifies pmm`freePages, pmm`usedPages, pmm`taken, pmm.bits
      ensures Valid()
      ensures ptPhys == 0 <==> old(FreeSet(pmm.taken)) == {}
      ensures ptPhys == 0 ==> FreeSet(pmm.taken) == old(FreeSet(pmm.taken))
      ensures ptPhys != 0 ==> ptPhys / PAGE in old(FreeSet(pmm.taken)) && 0 < ptPhys / PAGE
      ensures ptPhys != 0 ==> FreeSet(pmm.taken) == old(FreeSet(pmm.taken)) - {ptPhys / PAGE}
      ensures ptPhys != 0 ==> FreshTable(mem, dir, ptPhys / PAGE)
      ensures Skimmed(old(FreeSet(pmm.taken)), FreeSet(pmm.taken))
    {
      assert Open(TheTables, 0);
      ghost var free := FreeSet(pmm.taken);
      pmm.FreeIsBelow();
      ptPhys := pmm.AllocPage();
      SkimNothing(free);
      if ptPhys != 0 {
        SkimLowest(free, ptPhys / PAGE);
      }
    }

    /** The paging-on branch of vmm_map_page: every access goes through the window. */
    method MapPaged(va: Word, phys: Word, flags: nat) returns (st: Status, ghost t: nat)
      requires Valid() && va < WINDOW && paging
      modifies this`mem, pmm`freePages, pmm`usedPages, pmm`taken, pmm.bits
      ensures pmm.Valid()
      ensures MapStep(old(mem), mem, dir, old(FreeSet(pmm.taken)), FreeSet(pmm.taken), va, phys, flags, st, t)
      ensures st == AlreadyMapped <==> Conflict(old(mem), dir, va, phys)
      ensures Skimmed(old(FreeSet(pmm.taken)), FreeSet(pmm.taken))
    {
      var pdIndex, ptIndex := PdIndex(va), PtIndex(va);
      assert Open(TheTables, 0);
      SkimNothing(FreeSet(pmm.taken));
      t := 0;
      assert va / PAGE / ENTRIES == pdIndex;
      var pde := ReadDirectory(pdIndex);
      if !Present(pde) {
        var ptPhys := AllocTable();
        if ptPhys == 0 {
          return OutOfMemory, 0;
        }
        t := ptPhys / PAGE;
        InstallVirtual(pdIndex, ptPhys / PAGE);
        Installed(old(mem), dir, pdIndex, t);
      }
      var pte := ReadTable(pdIndex, ptIndex);
      if Present(pte) && FrameOf(pte) != FrameOf(phys) {
        return AlreadyMapped, 0;
      }
      WriteTable(pdIndex, ptIndex, NewPte(phys, flags));
      st := Ok;
    }

    /** The paging-off branch of vmm_map_page: directory and table by physical address. */
    method MapDirect(va: Word, phys: Word, flags: nat) returns (st: Status, ghost t: nat)
      requires Valid() && va < WINDOW
      modifies this`mem, pmm`freePages, pmm`usedPages, pmm`taken, pmm.bits
      ensures pmm.Valid()
      ensures MapStep(old(mem), mem, dir, old(FreeSet(pmm.taken)), FreeSet(pmm.taken), va, phys, flags, st, t)
      ensures st != AlreadyMapped
      ensures Skimmed(old(FreeSet(pmm.taken)), FreeSet(pmm.taken))
    {
      var pdIndex, ptIndex := PdIndex(va), PtIndex(va);
      assert Open(TheTables, 0);
      SkimNothing(FreeSet(pmm.taken));
      t := 0;
      if !Present(mem[dir][pdIndex]) {
        var ptPhys := AllocTable();
        if ptPhys == 0 {
          return OutOfMemory, 0;
        }
        t := ptPhys / PAGE;
        InstallPhysical(pdIndex, ptPhys / PAGE);
        Installed(old(mem), dir, pdIndex, t);
      }
      mem := Put(mem, FrameOf(mem[dir][pdIndex]), ptIndex, NewPte(phys, flags));
      st := Ok;
    }

    /** vmm_map_page. Both branches do to memory what Mapped says; only the paging-on branch
        refuses to move a mapped page to another frame. `t` is the table frame taken, if any. */
    method MapPage(va: Word, phys: Word, flags: nat) returns (st: Status, ghost t: nat)
      requires Valid() && va < WINDOW
      modifies this`mem, pmm`freePages, pmm`usedPages, pmm`taken, pmm.bits
      ensures Valid()
      ensures MapStep(old(mem), mem, dir, old(FreeSet(pmm.taken)), FreeSet(pmm.taken), va, phys, flags, st, t)
      ensures st == AlreadyMapped <==> paging && Conflict(old(mem), dir, va, phys)
      ensures SameExcept(old(mem), mem, dir, va / PAGE, va / PAGE + 1)
      ensures st == Ok ==> At(va / PAGE) == MappingFor(phys, flags)
      ensures StepKept(old(mem), mem, dir, old(FreeSet(pmm.taken)), FreeSet(pmm.taken))
      ensures TablesStep(old(mem), mem, dir, old(FreeSet(pmm.taken)), FreeSet(pmm.taken), va / PAGE / ENTRIES, st)
      ensures Skimmed(old(FreeSet(pmm.taken)), FreeSet(pmm.taken))
    {
      if paging {
        st, t := MapPaged(va, phys, flags);
      } else {
        st, t := MapDirect(va, phys, flags);
      }
      MapStepSealed(old(mem), mem, dir, old(FreeSet(pmm.taken)), FreeSet(pmm.taken), va, phys, flags, st, t, paging);
    }

    /** vmm_unmap_page: fails exactly when the page is not mapped. */
    method UnmapPage(va: Word) returns (st: Status)
      requires Valid() && va < WINDOW
      modifies this`mem
      ensures Valid()
      ensures st == if old(At(va / PAGE)).Some? then Ok else InvalidParam
      ensures mem == if st == Ok then Unmapped(old(mem), dir, va) else old(mem)
      ensures SameExcept(old(mem), mem, dir, va / PAGE, va / PAGE + 1) && At(va / PAGE) == None
      ensures mem[dir] == old(mem)[dir]
    {
      var pdIndex, ptIndex := PdIndex(va), PtIndex(va);
      assert Open(TheTables, 0);
      assert va / PAGE / ENTRIES == pdIndex;
      if Present(mem[dir][pdIndex]) {
        PutKeeps(mem, dir, va, 0);
      }
      if paging {
        var pde := ReadDirectory(pdIndex);
        if !Present(pde) {
          return InvalidParam;
        }
        var pte := ReadTable(pdIndex, ptIndex);
        if !Present(pte) {
          return InvalidParam;
        }
        WriteTable(pdIndex, ptIndex, 0);
      } else {
        if !Present(mem[dir][pdIndex]) {
          return InvalidParam;
        }
        if !Present(mem[FrameOf(mem[dir][pdIndex])][ptIndex]) {
          return InvalidParam;
        }
        mem := Put(mem, FrameOf(mem[dir][pdIndex]), ptIndex, 0);
      }
      st := Ok;
    }

    /** vmm_get_physical_addr: what the hardware walk reaches, with 0 for an unmapped page. */
    method GetPhysicalAddr(va: Word) returns (r: Word)
      requires Valid()
      ensures r == match Walk(mem, dir, va) case None => 0 case Some(pa) => pa
      ensures r != 0 <==> At(va / PAGE).Some? && !(At(va / PAGE).value.frame == 0 && va % PAGE == 0)
    {
      var pdIndex, ptIndex := PdIndex(va), PtIndex(va);
      assert Open(TheTables, 0);
      WalkIsTranslate(mem, dir, va);
      if paging {
        var pde := ReadDirectory(pdIndex);
        if !Present(pde) {
          return 0;
        }
        var pte := ReadTable(pdIndex, ptIndex);
        if !Present(pte) {
          return 0;
        }
        return AlignDown(pte, PAGE) + va % PAGE;
      } else {
        if !Present(mem[dir][pdIndex]) {
          return 0;
        }
        var pte := mem[FrameOf(mem[dir][pdIndex])][ptIndex];
        if !Present(pte) {
          return 0;
        }
        return AlignDown(pte, PAGE) + va % PAGE;
      }
    }

    /** The rollback of vmm_map_pages: unmap the first n pages from `virt`. */
    method Rollback(virt: Word, n: nat)
      requires Valid() && virt + n * PAGE <= WINDOW
      modifies this`mem
      ensures Valid()
      ensures SameExcept(old(mem), mem, dir, virt / PAGE, virt / PAGE + n)
      ensures Clear(mem, dir, virt / PAGE, n)
      ensures mem[dir] == old(mem)[dir]
    {
      assert virt / PAGE + n <= WINDOW / PAGE;
      for j := 0 to n
        invariant Valid()
        invariant SameExcept(old(mem), mem, dir, virt / PAGE, virt / PAGE + j)
        invariant Clear(mem, dir, virt / PAGE, j)
        invariant mem[dir] == old(mem)[dir]
      {
        assert (virt + j * PAGE) / PAGE == virt / PAGE + j;
        var _ := UnmapPage(virt + j * PAGE);
      }
    }

    /** vmm_map_pages, on any range: it succeeds exactly when no page clashes with another mapping and the
        tables it has to install do not outnumber the free frames. When it gives up at page `done`, the
        pages before it are unmapped, whatever they were before, and all others are as they were. */
    method MapPages(virt: Word, phys: Word, count: nat, flags: nat) returns (st: Status, ghost done: nat)
      requires Valid() && virt + count * PAGE <= WINDOW && phys + count * PAGE <= TWO32
      modifies this`mem, pmm`freePages, pmm`usedPages, pmm`taken, pmm.bits
      ensures Valid()
      ensures st == Ok || st == OutOfMemory || st == AlreadyMapped
      ensures st == Ok <==> NoClash(old(mem), dir, virt / PAGE, phys, count, paging)
                            && |Missing(old(mem), dir, virt / PAGE, count)| <= |old(FreeSet(pmm.taken))|
      ensures st == Ok ==> MappedRange(mem, dir, virt / PAGE, phys, count, flags)
      ensures st == Ok ==> SameExcept(old(mem), mem, dir, virt / PAGE, virt / PAGE + count)
      ensures st != Ok ==> StoppedAt(old(mem), dir, old(FreeSet(pmm.taken)), virt / PAGE, phys, count, paging, st, done)
      ensures st != Ok ==> SameExcept(old(mem), mem, dir, virt / PAGE, virt / PAGE + done)
      ensures st != Ok ==> Clear(mem, dir, virt / PAGE, done)
      ensures st != Ok && Clear(old(mem), dir, virt / PAGE, count) ==>
                st == OutOfMemory && SameExcept(old(mem), mem, dir, 0, 0)
      ensures st == OutOfMemory ==> FreeSet(pmm.taken) == {} && Missing(mem, dir, virt / PAGE, count) != {}
      ensures StepKept(old(mem), mem, dir, old(FreeSet(pmm.taken)), FreeSet(pmm.taken))
    {
      ghost var m, free := mem, FreeSet(pmm.taken);
      ghost var page := virt / PAGE;
      RangePages(virt, count);
      st, done := MapLoop(virt, phys, count, flags, page);
      if st == Ok {
        ProgressEnd(m, mem, dir, free, FreeSet(pmm.taken), page, phys, count, flags, paging);
      } else {
        GivenUpMeans(m, mem, dir, free, FreeSet(pmm.taken), page, phys, count, paging, st, done);
      }
    }

    /** The loop of vmm_map_pages. */
    method MapLoop(virt: Word, phys: Word, count: nat, flags: nat, ghost page: nat)
        returns (st: Status, ghost done: nat)
      requires Valid() && RangeOk(virt, phys, count, page)
      modifies this`mem, pmm`freePages, pmm`usedPages, pmm`taken, pmm.bits
      ensures Valid()
      ensures st == Ok ==> Progress(old(mem), mem, dir, old(FreeSet(pmm.taken)), FreeSet(pmm.taken), page, phys, count,
                                    flags, paging)
      ensures st != Ok ==> done < count
      ensures st != Ok ==> GivenUp(old(mem), mem, dir, old(FreeSet(pmm.taken)), FreeSet(pmm.taken), page, phys, count,
                                   paging, st, done)
    {
      ghost var m, free := mem, FreeSet(pmm.taken);
      Starting(page, phys, flags);
      var i := 0;
      while i != count
        invariant i <= count && Valid()
        invariant Progress(m, mem, dir, free, FreeSet(pmm.taken), page, phys, i, flags, paging)
      {
        var next := i + 1;
        st := MapNext(virt, phys, count, i, next, flags, page, m, free);
        if st != Ok {
          return st, i;
        }
        i := next;
      }
      st, done := Ok, count;
    }

    lemma Starting(page: nat, phys: Word, flags: nat)
      requires Valid() && page <= FRAMES
      ensures Progress(mem, mem, dir, FreeSet(pmm.taken), FreeSet(pmm.taken), page, phys, 0, flags, paging)
    {
      assert Open(TheTables, 0);
      ProgressStart(mem, dir, FreeSet(pmm.taken), page, phys, flags, paging);
    }

    /** The body of that loop: map page i, or undo the pages before it. */
    method MapNext(virt: Word, phys: Word, count: nat, i: nat, ghost next: nat, flags: nat, ghost page: nat,
                   ghost m: Memory, ghost free: set<int>)
        returns (st: Status)
      requires Valid() && i < next == i + 1 <= count && RangeOk(virt, phys, count, page)
      requires WellFormed(m) && Progress(m, mem, dir, free, FreeSet(pmm.taken), page, phys, i, flags, paging)
      modifies this`mem, pmm`freePages, pmm`usedPages, pmm`taken, pmm.bits
      ensures Valid()
      ensures st == Ok ==> Progress(m, mem, dir, free, FreeSet(pmm.taken), page, phys, next, flags, paging)
      ensures st != Ok ==> GivenUp(m, mem, dir, free, FreeSet(pmm.taken), page, phys, count, paging, st, i)
    {
      ghost var m0, free0 := mem, FreeSet(pmm.taken);
      st := MapIth(virt, phys, count, i, flags, page);
      if st == Ok {
        ProgressStep(m, m0, mem, dir, free, free0, FreeSet(pmm.taken), page, phys, i, flags, paging);
      } else {
        ProgressFails(m, m0, dir, free, free0, page, phys, i, count, flags, paging, st);
        Undo(virt, i, m, count, page);
        Undone(m, m0, mem, dir, free, free0, page, phys, count, paging, st, i);
      }
    }

    /** vmm_map_page for page i of a range. */
    method MapIth(virt: Word, phys: Word, count: nat, i: nat, flags: nat, ghost page: nat) returns (st: Status)
      requires Valid() && RangeOk(virt, phys, count, page) && i < count
      modifies this`mem, pmm`freePages, pmm`usedPages, pmm`taken, pmm.bits
      ensures Valid() && (st == Ok || st == OutOfMemory || st == AlreadyMapped)
      ensures st != Ok ==> mem == old(mem) && FreeSet(pmm.taken) == old(FreeSet(pmm.taken))
      ensures st == AlreadyMapped <==> Clash(old(mem), dir, page + i, phys + i * PAGE, paging)
      ensures SameExcept(old(mem), mem, dir, page + i, page + i + 1)
      ensures st == Ok ==> Translate(mem, dir, page + i) == MappingFor(phys + i * PAGE, flags)
      ensures StepKept(old(mem), mem, dir, old(FreeSet(pmm.taken)), FreeSet(pmm.taken))
      ensures TablesStep(old(mem), mem, dir, old(FreeSet(pmm.taken)), FreeSet(pmm.taken), (page + i) / ENTRIES, st)
    {
      PageAt(virt, phys, count, page, i);
      ghost var t;
      st, t := MapPage(virt + i * PAGE, phys + i * PAGE, flags);
    }

    /** The rollback, seen from the state m before the first page was mapped. */
    method Undo(virt: Word, i: nat, ghost m: Memory, ghost count: nat, ghost page: nat)
      requires Valid() && i < count && RangeOk(virt, 0, count, page)
      requires WellFormed(m) && SameExcept(m, mem, dir, page, page + i)
      modifies this`mem
      ensures Valid() && mem[dir] == old(mem)[dir] && FreeSet(pmm.taken) == old(FreeSet(pmm.taken))
      ensures SameExcept(m, mem, dir, page, page + i) && Clear(mem, dir, page, i)
    {
      ghost var m0 := mem;
      Rollback(virt, i);
      SameAgain(m, m0, mem, dir, page, page + i);
    }
  }

  lemma SameAgain(m: Memory, m0: Memory, m1: Memory, dir: nat, lo: int, hi: int)
    requires WellFormed(m) && WellFormed(m0) && WellFormed(m1) && dir < FRAMES
    requires SameExcept(m, m0, dir, lo, hi) && SameExcept(m0, m1, dir, lo, hi)
    ensures SameExcept(m, m1, dir, lo, hi)
  {}

  /** The ranges vmm_map_pages is called on: `page` is the first page, and nothing wraps or meets the window. */
  ghost predicate RangeOk(virt: Word, phys: int, count: nat, page: nat) {
    && virt / PAGE == page && virt + count * PAGE <= WINDOW
    && phys + count * PAGE <= TWO32 && page + count <= WINDOW / PAGE
  }

  lemma RangePages(virt: Word, count: nat)
    requires virt + count * PAGE <= WINDOW
    ensures virt / PAGE + count <= WINDOW / PAGE
  {}

  lemma PageAt(virt: Word, phys: Word, count: nat, page: nat, i: nat)
    requires RangeOk(virt, phys, count, page) && i < count
    ensures virt + i * PAGE < WINDOW && phys + i * PAGE < TWO32 && (virt + i * PAGE) / PAGE == page + i
  {}

  /** The page is mapped to another frame than the one asked for, and paging is on. */
  predicate Clash(m: Memory, dir: nat, page: nat, phys: Word, paging: bool)
    requires WellFormed(m) && dir < FRAMES && page < FRAMES
  {
    paging && Translate(m, dir, page).Some? && Translate(m, dir, page).value.frame != FrameOf(phys)
  }

  /** Page i of a range clashes. */
  predicate ClashAt(m: Memory, dir: nat, page: nat, phys: Word, i: nat, paging: bool)
    requires WellFormed(m) && dir < FRAMES && page + i < FRAMES && phys + i * PAGE < TWO32
  {
    Clash(m, dir, page + i, phys + i * PAGE, paging)
  }

  ghost predicate NoClash(m: Memory, dir: nat, page: nat, phys: Word, count: nat, paging: bool)
    requires WellFormed(m) && dir < FRAMES && page + count <= FRAMES && phys + count * PAGE <= TWO32
  {
    forall i {:trigger ClashAt(m, dir, page, phys, i, paging)} ::
      0 <= i < count ==> !ClashAt(m, dir, page, phys, i, paging)
  }

  lemma ClearNoClash(m: Memory, dir: nat, page: nat, phys: Word, count: nat, paging: bool)
    requires WellFormed(m) && dir < FRAMES && page + count <= FRAMES && phys + count * PAGE <= TWO32
    requires Clear(m, dir, page, count)
    ensures NoClash(m, dir, page, phys, count, paging)
  {
    forall i {:trigger ClashAt(m, dir, page, phys, i, paging)} | 0 <= i < count
      ensures !ClashAt(m, dir, page, phys, i, paging)
    {
      assert Translate(m, dir, page + i) == None;
    }
  }

  /** Why and where vmm_map_pages gives up: at the first page that clashes, or at the first one whose table
      cannot be had; `done` pages come before it. */
  ghost predicate StoppedAt(m: Memory, dir: nat, free: set<int>, page: nat, phys: Word, count: nat, paging: bool,
                            st: Status, done: nat)
    requires WellFormed(m) && dir < FRAMES && page + count <= FRAMES && phys + count * PAGE <= TWO32
  {
    && done < count && NoClash(m, dir, page, phys, done, paging) && |Missing(m, dir, page, done)| <= |free|
    && (st == AlreadyMapped <==> ClashAt(m, dir, page, phys, done, paging))
    && (st == OutOfMemory <==> |Missing(m, dir, page, done + 1)| > |free|)
  }

  /** What the loop of vmm_map_pages knows after i pages. */
  ghost predicate Progress(m: Memory, m': Memory, dir: nat, free: set<int>, free': set<int>,
                           page: nat, phys: Word, i: nat, flags: nat, paging: bool)
    requires WellFormed(m) && WellFormed(m') && dir < FRAMES && page + i <= FRAMES && phys + i * PAGE <= TWO32
  {
    ProgressSeal(m, m', dir, free, free', page, phys, i, flags, paging).Intact?
  }

  ghost function ProgressSeal(m: Memory, m': Memory, dir: nat, free: set<int>, free': set<int>,
                              page: nat, phys: Word, i: nat, flags: nat, paging: bool): Seal
    requires WellFormed(m) && WellFormed(m') && dir < FRAMES && page + i <= FRAMES && phys + i * PAGE <= TWO32
  {
    if forall k {:trigger Open(TheRange, k)} :: Open(TheRange, k) ==>
      && SameExcept(m, m', dir, page, page + i)
      && MappedRange(m', dir, page, phys, i, flags)
      && NoClash(m, dir, page, phys, i, paging)
      && StepKept(m, m', dir, free, free')
      && TablesCounted(m, m', dir, free, free', page, i, 0)
    then Intact else Broken
  }

  lemma ProgressStart(m: Memory, dir: nat, free: set<int>, page: nat, phys: Word, flags: nat, paging: bool)
    requires Tree(m, dir) && Owned(m, dir, free) && page <= FRAMES
    ensures Progress(m, m, dir, free, free, page, phys, 0, flags, paging)
  {
    CountedStart(m, dir, free, page);
  }

  lemma ProgressStep(m: Memory, m0: Memory, m1: Memory, dir: nat, free: set<int>, free0: set<int>, free1: set<int>,
                     page: nat, phys: Word, i: nat, flags: nat, paging: bool)
    requires WellFormed(m) && WellFormed(m0) && WellFormed(m1) && dir < FRAMES
    requires page + i < WINDOW / PAGE && phys + (i + 1) * PAGE <= TWO32
    requires Progress(m, m0, dir, free, free0, page, phys, i, flags, paging)
    requires StepKept(m0, m1, dir, free0, free1) && !Clash(m0, dir, page + i, phys + i * PAGE, paging)
    requires TablesStep(m0, m1, dir, free0, free1, (page + i) / ENTRIES, Ok)
    requires SameExcept(m0, m1, dir, page + i, page + i + 1)
    requires Translate(m1, dir, page + i) == MappingFor(phys + i * PAGE, flags)
    ensures Progress(m, m1, dir, free, free1, page, phys, i + 1, flags, paging)
  {
    assert Open(TheRange, 0);
    StepsKept(m, m0, m1, dir, free, free0, free1);
    CountedStep(m, m0, m1, dir, free, free0, free1, page, i, 0, 0);
    RangeExtends(m, m0, m1, dir, page, phys, i, flags);
    ClashBefore(m, m0, dir, page, phys, i, paging);
    assert !ClashAt(m, dir, page, phys, i, paging);
  }

  /** A page the loop has not reached clashes now exactly when it did at the start. */
  lemma ClashBefore(m: Memory, m0: Memory, dir: nat, page: nat, phys: Word, i: nat, paging: bool)
    requires WellFormed(m) && WellFormed(m0) && dir < FRAMES && page + i < WINDOW / PAGE
    requires phys + (i + 1) * PAGE <= TWO32
    requires SameExcept(m, m0, dir, page, page + i)
    ensures Clash(m, dir, page + i, phys + i * PAGE, paging) <==> Clash(m0, dir, page + i, phys + i * PAGE, paging)
  {
    assert Translate(m0, dir, page + i) == Translate(m, dir, page + i);
  }

  lemma ProgressEnd(m: Memory, m': Memory, dir: nat, free: set<int>, free': set<int>,
                    page: nat, phys: Word, count: nat, flags: nat, paging: bool)
    requires WellFormed(m) && WellFormed(m') && dir < FRAMES && page + count <= FRAMES && phys + count * PAGE <= TWO32
    requires Progress(m, m', dir, free, free', page, phys, count, flags, paging)
    ensures SameExcept(m, m', dir, page, page + count) && MappedRange(m', dir, page, phys, count, flags)
    ensures NoClash(m, dir, page, phys, count, paging)
    ensures StepKept(m, m', dir, free, free') && |Missing(m, dir, page, count)| <= |free|
  {
    assert Open(TheRange, 0) && Open(TheCount, 0);
  }

  /** Page i could not be mapped: what that says about the whole range. */
  lemma ProgressFails(m: Memory, m0: Memory, dir: nat, free: set<int>, free0: set<int>,
                      page: nat, phys: Word, i: nat, count: nat, flags: nat, paging: bool, st: Status)
    requires WellFormed(m) && WellFormed(m0) && dir < FRAMES && i < count && page + count <= WINDOW / PAGE
    requires phys + count * PAGE <= TWO32 && (st == OutOfMemory || st == AlreadyMapped)
    requires Progress(m, m0, dir, free, free0, page, phys, i, flags, paging)
    requires st == OutOfMemory <==> (page + i) / ENTRIES !in Tables(m0, dir) && free0 == {}
    requires st == AlreadyMapped <==> Clash(m0, dir, page + i, phys + i * PAGE, paging)
    ensures SameExcept(m, m0, dir, page, page + i) && StepKept(m, m0, dir, free, free0)
    ensures StoppedAt(m, dir, free, page, phys, count, paging, st, i)
    ensures st == OutOfMemory ==> |Missing(m, dir, page, count)| > |free| && Missing(m0, dir, page, count) != {}
  {
    assert Open(TheRange, 0);
    ClashBefore(m, m0, dir, page, phys, i, paging);
    StopCount(m, m0, dir, free, free0, page, i);
    if st == OutOfMemory {
      RunsShort(m, m0, dir, free, free0, page, i, count);
    }
  }

  lemma StopCount(m: Memory, m0: Memory, dir: nat, free: set<int>, free0: set<int>, page: nat, i: nat)
    requires WellFormed(m) && WellFormed(m0) && dir < FRAMES && TablesCounted(m, m0, dir, free, free0, page, i, 0)
    ensures |Missing(m, dir, page, i)| <= |free|
    ensures |Missing(m, dir, page, i + 1)| > |free| <==> (page + i) / ENTRIES !in Tables(m0, dir) && free0 == {}
  {
    CountedMeans(m, m0, dir, free, free0, page, i, 0);
    MissingNext(m, m0, dir, page, i);
    assert free0 == {} <==> |free0| == 0;
  }

  /** What vmm_map_pages leaves when it gives up. */
  ghost predicate GivenUp(m: Memory, m': Memory, dir: nat, free: set<int>, free': set<int>, page: nat, phys: Word,
                          count: nat, paging: bool, st: Status, done: nat)
    requires WellFormed(m) && WellFormed(m') && dir < FRAMES && page + count <= FRAMES && phys + count * PAGE <= TWO32
    requires done < count
  {
    FailureSeal(m, m', dir, free, free', page, phys, count, paging, st, done).Intact?
  }

  ghost function FailureSeal(m: Memory, m': Memory, dir: nat, free: set<int>, free': set<int>, page: nat, phys: Word,
                             count: nat, paging: bool, st: Status, done: nat): Seal
    requires WellFormed(m) && WellFormed(m') && dir < FRAMES && page + count <= FRAMES && phys + count * PAGE <= TWO32
    requires done < count
  {
    if forall k {:trigger Open(TheFailure, k)} :: Open(TheFailure, k) ==>
      && (st == OutOfMemory || st == AlreadyMapped)
      && StoppedAt(m, dir, free, page, phys, count, paging, st, done)
      && SameExcept(m, m', dir, page, page + done) && Clear(m', dir, page, done)
      && (st == OutOfMemory ==> |Missing(m, dir, page, count)| > |free|)
      && (st == OutOfMemory ==> free' == {} && Missing(m', dir, page, count) != {})
      && StepKept(m, m', dir, free, free')
    then Intact else Broken
  }

  lemma GivenUpMeans(m: Memory, m': Memory, dir: nat, free: set<int>, free': set<int>, page: nat, phys: Word,
                     count: nat, paging: bool, st: Status, done: nat)
    requires WellFormed(m) && WellFormed(m') && dir < FRAMES && page + count <= WINDOW / PAGE
    requires phys + count * PAGE <= TWO32 && done < count
    requires GivenUp(m, m', dir, free, free', page, phys, count, paging, st, done)
    ensures st == OutOfMemory || st == AlreadyMapped
    ensures StoppedAt(m, dir, free, page, phys, count, paging, st, done)
    ensures SameExcept(m, m', dir, page, page + done) && Clear(m', dir, page, done)
    ensures !(NoClash(m, dir, page, phys, count, paging) && |Missing(m, dir, page, count)| <= |free|)
    ensures Clear(m, dir, page, count) ==> st == OutOfMemory && SameExcept(m, m', dir, 0, 0)
    ensures st == OutOfMemory ==> free' == {} && Missing(m', dir, page, count) != {}
    ensures StepKept(m, m', dir, free, free')
  {
    assert Open(TheFailure, 0);
    assert st == AlreadyMapped ==> ClashAt(m, dir, page, phys, done, paging);
    if Clear(m, dir, page, count) {
      ClearNoClash(m, dir, page, phys, count, paging);
      BackToClear(m, m', dir, page, done, count);
    }
  }

  /** Unmapping pages that were unmapped before leaves nothing changed. */
  lemma BackToClear(m: Memory, m': Memory, dir: nat, page: nat, done: nat, count: nat)
    requires WellFormed(m) && WellFormed(m') && dir < FRAMES && done <= count && page + count <= WINDOW / PAGE
    requires Clear(m, dir, page, count) && SameExcept(m, m', dir, page, page + done) && Clear(m', dir, page, done)
    ensures SameExcept(m, m', dir, 0, 0)
  {}

  /** Unmapping leaves the directory alone, and with it the tables. */
  lemma Undone(m: Memory, m0: Memory, m1: Memory, dir: nat, free: set<int>, free0: set<int>, page: nat, phys: Word,
               count: nat, paging: bool, st: Status, done: nat)
    requires WellFormed(m) && WellFormed(m0) && WellFormed(m1) && dir < FRAMES && m1[dir] == m0[dir]
    requires page + count <= FRAMES && phys + count * PAGE <= TWO32 && done < count
    requires st == OutOfMemory || st == AlreadyMapped
    requires StepKept(m, m0, dir, free, free0) && StoppedAt(m, dir, free, page, phys, count, paging, st, done)
    requires st == OutOfMemory ==> |Missing(m, dir, page, count)| > |free| && free0 == {}
    requires st == OutOfMemory ==> Missing(m0, dir, page, count) != {}
    requires SameExcept(m, m1, dir, page, page + done) && Clear(m1, dir, page, done)
    ensures GivenUp(m, m1, dir, free, free0, page, phys, count, paging, st, done)
  {
    SameDirectory(m, m0, m1, dir, free, free0);
  }

  lemma SameDirectory(m: Memory, m0: Memory, m1: Memory, dir: nat, free: set<int>, free0: set<int>)
    requires WellFormed(m) && WellFormed(m0) && WellFormed(m1) && dir < FRAMES && m1[dir] == m0[dir]
    requires StepKept(m, m0, dir, free, free0)
    ensures StepKept(m, m1, dir, free, free0) && Tables(m1, dir) == Tables(m0, dir)
  {
    assert Open(TheStep, 0);
    assert Tables(m1, dir) == Tables(m0, dir);
  }

  /** When page i cannot have its table, the tables of the whole range outnumber the frames. */
  lemma RunsShort(m: Memory, m0: Memory, dir: nat, free: set<int>, free0: set<int>, page: nat, i: nat, count: nat)
    requires WellFormed(m) && WellFormed(m0) && dir < FRAMES && i < count
    requires TablesCounted(m, m0, dir, free, free0, page, i, 0)
    requires (page + i) / ENTRIES !in Tables(m0, dir) && free0 == {}
    ensures |Missing(m, dir, page, count)| > |free|
    ensures Missing(m0, dir, page, count) != {}
  {
    CountedMeans(m, m0, dir, free, free0, page, i, 0);
    MissingNext(m, m0, dir, page, i);
    MissingGrows(m, dir, page, i + 1, count);
    NotAllThere(m0, dir, page, i, count);
  }

  lemma CountedMeans(m: Memory, m': Memory, dir: nat, free: set<int>, free': set<int>, page: nat, i: nat, data: nat)
    requires WellFormed(m) && WellFormed(m') && dir < FRAMES && TablesCounted(m, m', dir, free, free', page, i, data)
    ensures Tables(m', dir) == Tables(m, dir) + Slots(page, i)
    ensures |free'| + |Missing(m, dir, page, i)| + data == |free|
  {
    assert Open(TheCount, 0);
  }

  lemma NotAllThere(m: Memory, dir: nat, page: nat, i: nat, count: nat)
    requires WellFormed(m) && dir < FRAMES && i < count && (page + i) / ENTRIES !in Tables(m, dir)
    ensures Missing(m, dir, page, count) != {}
  {
    MissingGrows(m, dir, page, i + 1, count);
    assert (page + i) / ENTRIES in Missing(m, dir, page, i + 1);
  }
}
