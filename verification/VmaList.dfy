/** Virtual memory areas as values: a sorted sequence of disjoint intervals and the page map it
    stands for. The operations are those of src/mm/vma.c. */
module VmaList {
  import opened Kernel

  /** vm_start, vm_end, vm_pgoff and vm_flags of a vm_area_struct. */
  datatype Area = Area(start: int, end: int, pgoff: int, flags: int)

  type Areas = seq<Area>

  datatype Backing = Unmapped | Backed(flags: int, pgoff: int)

  predicate Aligned(a: Area) {
    0 <= a.start < a.end && a.start % PAGE == 0 && a.end % PAGE == 0
  }

  /** Sorted, pairwise disjoint, page-aligned and not empty. */
  ghost predicate Sorted(s: Areas) {
    && (forall i :: 0 <= i < |s| ==> Aligned(s[i]))
    && (forall i, j :: 0 <= i < j < |s| ==> s[i].end <= s[j].start)
  }

  /** What mmap_anonymous sets up and splitting keeps: the page offset is the page number. */
  ghost predicate OffsetsFollow(s: Areas) {
    forall i :: 0 <= i < |s| ==> s[i].pgoff == s[i].start / PAGE
  }

  predicate Covers(a: Area, page: int) {
    a.start <= page * PAGE < a.end
  }

  /** What one area says about page `page`: its flags and page offset. */
  function PageOf(a: Area, page: int): Backing {
    if Covers(a, page) then Backed(a.flags, a.pgoff + page - a.start / PAGE) else Unmapped
  }

  /** The page map of a list of areas. */
  function Lookup(s: Areas, page: int): Backing {
    if s == [] then Unmapped
    else if PageOf(s[0], page).Backed? then PageOf(s[0], page)
    else Lookup(s[1..], page)
  }

  lemma LookupOne(a: Area, page: int)
    ensures Lookup([a], page) == PageOf(a, page)
  {
    assert Lookup([a][1..], page) == Unmapped;
  }

  lemma {:induction false} LookupConcat(s: Areas, t: Areas, page: int)
    ensures Lookup(s + t, page) == if Lookup(s, page).Unmapped? then Lookup(t, page) else Lookup(s, page)
  {
    if s == [] {
      assert s + t == t;
    } else {
      assert (s + t)[1..] == s[1..] + t;
      LookupConcat(s[1..], t, page);
    }
  }

  lemma {:induction false} LookupMapped(s: Areas, page: int)
    ensures Lookup(s, page).Backed? <==> exists i :: 0 <= i < |s| && Covers(s[i], page)
  {
    if s != [] {
      LookupMapped(s[1..], page);
      assert forall i :: 1 <= i < |s| ==> s[i] == s[1..][i - 1];
      if exists i :: 0 <= i < |s[1..]| && Covers(s[1..][i], page) {
        var i :| 0 <= i < |s[1..]| && Covers(s[1..][i], page);
        assert Covers(s[i + 1], page);
      }
    }
  }

  // ---------------------------------------------------------------- splitting

  /** The upper part split_vma_at creates. */
  function Upper(a: Area, addr: int): Area {
    Area(addr, a.end, a.pgoff + (addr - a.start) / PAGE, a.flags)
  }

  function Lower(a: Area, addr: int): Area {
    a.(end := addr)
  }

  function SplitAt(s: Areas, i: nat, addr: int): Areas
    requires i < |s|
  {
    s[..i] + [Lower(s[i], addr), Upper(s[i], addr)] + s[i + 1..]
  }

  lemma UpperPages(a: Area, addr: int, page: int)
    requires Aligned(a) && addr % PAGE == 0 && a.start < addr < a.end
    ensures PageOf(Upper(a, addr), page) == if addr <= page * PAGE then PageOf(a, page) else Unmapped
    ensures PageOf(Lower(a, addr), page) == if page * PAGE < addr then PageOf(a, page) else Unmapped
    ensures Aligned(Lower(a, addr)) && Aligned(Upper(a, addr))
    ensures a.pgoff == a.start / PAGE ==> Upper(a, addr).pgoff == addr / PAGE
  {
    assert (addr - a.start) / PAGE == addr / PAGE - a.start / PAGE;
  }

  lemma SortedConcat(s: Areas, t: Areas)
    requires Sorted(s) && Sorted(t)
    requires forall i, j :: 0 <= i < |s| && 0 <= j < |t| ==> s[i].end <= t[j].start
    ensures Sorted(s + t)
    ensures OffsetsFollow(s) && OffsetsFollow(t) ==> OffsetsFollow(s + t)
  {
    var u := s + t;
    forall i, j | 0 <= i < j < |u| ensures u[i].end <= u[j].start {
      assert u[i] == if i < |s| then s[i] else t[i - |s|];
      assert u[j] == if j < |s| then s[j] else t[j - |s|];
    }
  }

  /** Splitting an area changes no page and keeps the list in order. */
  lemma SplitKeeps(s: Areas, i: nat, addr: int)
    requires Sorted(s) && i < |s| && addr % PAGE == 0 && s[i].start < addr < s[i].end
    ensures Sorted(SplitAt(s, i, addr))
    ensures OffsetsFollow(s) ==> OffsetsFollow(SplitAt(s, i, addr))
  {
    UpperPages(s[i], addr, 0);
    var pre, mid, post := s[..i], [Lower(s[i], addr), Upper(s[i], addr)], s[i + 1..];
    SortedSuffix(s, i);
    SortedSuffix(s, i + 1);
    assert Sorted(mid);
    SortedConcat(pre, mid);
    forall k | 0 <= k < |pre + mid| ensures (pre + mid)[k].end <= s[i].end {
      assert k < i ==> (pre + mid)[k] == s[k] && s[k].end <= s[i].start;
    }
    forall j | 0 <= j < |post| ensures post[j] == s[i + 1 + j] && s[i].end <= post[j].start {
    }
    SortedConcat(pre + mid, post);
  }

  lemma SplitPages(s: Areas, i: nat, addr: int, page: int)
    requires Sorted(s) && i < |s| && addr % PAGE == 0 && s[i].start < addr < s[i].end
    ensures Lookup(SplitAt(s, i, addr), page) == Lookup(s, page)
  {
    var a, pre, post := s[i], s[..i], s[i + 1..];
    var mid := [Lower(a, addr)] + [Upper(a, addr)];
    assert mid == [Lower(a, addr), Upper(a, addr)];
    assert s == pre + [a] + post;
    UpperPages(a, addr, page);
    LookupOne(a, page);
    LookupOne(Lower(a, addr), page);
    LookupOne(Upper(a, addr), page);
    LookupConcat([Lower(a, addr)], [Upper(a, addr)], page);
    LookupConcat(pre + mid, post, page);
    LookupConcat(pre, mid, page);
    LookupConcat(pre + [a], post, page);
    LookupConcat(pre, [a], page);
  }

  // ---------------------------------------------------------------- interval subtraction

  /** What is left of one area when [lo, hi) is taken out of it. */
  function Pieces(a: Area, lo: int, hi: int): Areas {
    if a.end <= lo || hi <= a.start then [a]
    else (if a.start < lo then [Lower(a, lo)] else []) + (if hi < a.end then [Upper(a, hi)] else [])
  }

  /** Interval subtraction, area by area. */
  function Cut(s: Areas, lo: int, hi: int): Areas {
    if s == [] then [] else Pieces(s[0], lo, hi) + Cut(s[1..], lo, hi)
  }

  predicate InRange(page: int, lo: int, hi: int) {
    lo <= page * PAGE < hi
  }

  /** The page map that munmap_range should leave. */
  function Remaining(s: Areas, lo: int, hi: int, page: int): Backing {
    if InRange(page, lo, hi) then Unmapped else Lookup(s, page)
  }

  lemma PiecesPages(a: Area, lo: int, hi: int, page: int)
    requires Aligned(a) && lo % PAGE == 0 && hi % PAGE == 0 && lo <= hi
    ensures Lookup(Pieces(a, lo, hi), page) == Remaining([a], lo, hi, page)
  {
    LookupOne(a, page);
    if lo < a.end && a.start < hi {
      var left, right := if a.start < lo then [Lower(a, lo)] else [], if hi < a.end then [Upper(a, hi)] else [];
      LookupConcat(left, right, page);
      LookupOne(Lower(a, lo), page);
      LookupOne(Upper(a, hi), page);
      if a.start < lo {
        UpperPages(a, lo, page);
      }
      if hi < a.end {
        UpperPages(a, hi, page);
      }
    }
  }

  /** Cut is interval subtraction on the page map. */
  lemma {:induction false} CutPages(s: Areas, lo: int, hi: int, page: int)
    requires Sorted(s) && lo % PAGE == 0 && hi % PAGE == 0 && lo <= hi
    ensures Lookup(Cut(s, lo, hi), page) == Remaining(s, lo, hi, page)
  {
    if s != [] {
      SortedTail(s);
      CutPages(s[1..], lo, hi, page);
      PiecesPages(s[0], lo, hi, page);
      LookupConcat(Pieces(s[0], lo, hi), Cut(s[1..], lo, hi), page);
    }
  }

  lemma SortedTail(s: Areas)
    requires Sorted(s) && s != []
    ensures Sorted(s[1..])
  {}

  lemma SortedSuffix(s: Areas, k: nat)
    requires Sorted(s) && k <= |s|
    ensures Sorted(s[k..]) && Sorted(s[..k])
  {}

  /** The two halves of a cut of a concatenation. */
  lemma {:induction false} CutConcat(s: Areas, t: Areas, lo: int, hi: int)
    ensures Cut(s + t, lo, hi) == Cut(s, lo, hi) + Cut(t, lo, hi)
  {
    if s == [] {
      assert s + t == t;
    } else {
      assert (s + t)[1..] == s[1..] + t;
      CutConcat(s[1..], t, lo, hi);
      assert Pieces(s[0], lo, hi) + (Cut(s[1..], lo, hi) + Cut(t, lo, hi))
          == Pieces(s[0], lo, hi) + Cut(s[1..], lo, hi) + Cut(t, lo, hi);
    }
  }

  lemma {:induction false} CutNothing(s: Areas, lo: int, hi: int)
    requires forall i :: 0 <= i < |s| ==> s[i].end <= lo || hi <= s[i].start
    ensures Cut(s, lo, hi) == s
  {
    if s != [] {
      assert forall i :: 0 <= i < |s[1..]| ==> s[1..][i] == s[i + 1];
      CutNothing(s[1..], lo, hi);
    }
  }

  lemma {:induction false} CutKeeps(s: Areas, lo: int, hi: int)
    requires Sorted(s) && lo % PAGE == 0 && hi % PAGE == 0 && lo <= hi
    ensures Sorted(Cut(s, lo, hi))
    ensures OffsetsFollow(s) ==> OffsetsFollow(Cut(s, lo, hi))
    ensures s != [] ==> forall i :: 0 <= i < |Cut(s, lo, hi)| ==> s[0].start <= Cut(s, lo, hi)[i].start
  {
    if s != [] {
      SortedTail(s);
      CutKeeps(s[1..], lo, hi);
      PiecesKeep(s[0], lo, hi);
      SortedConcat(Pieces(s[0], lo, hi), Cut(s[1..], lo, hi));
    }
  }

  lemma PiecesKeep(a: Area, lo: int, hi: int)
    requires Aligned(a) && lo % PAGE == 0 && hi % PAGE == 0 && lo <= hi
    ensures Sorted(Pieces(a, lo, hi))
    ensures a.pgoff == a.start / PAGE ==> OffsetsFollow(Pieces(a, lo, hi))
    ensures forall i :: 0 <= i < |Pieces(a, lo, hi)| ==>
              a.start <= Pieces(a, lo, hi)[i].start && Pieces(a, lo, hi)[i].end <= a.end
  {
    if a.start < lo < a.end {
      UpperPages(a, lo, 0);
    }
    if a.start < hi < a.end {
      UpperPages(a, hi, 0);
    }
  }

  // ---------------------------------------------------------------- munmap_range as coded

  /** find_vma: the first area that ends after addr, or |s|. */
  function FindVma(s: Areas, addr: int): (k: nat)
    ensures k <= |s|
    ensures k < |s| ==> addr < s[k].end
    ensures forall i :: 0 <= i < k ==> s[i].end <= addr
  {
    if s == [] || addr < s[0].end then 0
    else
      var k := FindVma(s[1..], addr);
      assert forall i :: 1 <= i < 1 + k ==> s[i] == s[1..][i - 1];
      1 + k
  }

  /** The loop of munmap_range on the areas from the first one that starts in the range. */
  function Trim(t: Areas, hi: int): Areas {
    if t == [] || hi <= t[0].start then t
    else if hi < t[0].end then [Upper(t[0], hi)] + t[1..]
    else Trim(t[1..], hi)
  }

  /** The list munmap_range leaves. When the first area it removes was not split off, it has no
      predecessor at hand and makes what follows the new head of the list. */
  function AsCoded(s: Areas, lo: int, hi: int): Areas {
    var k := FindVma(s, lo);
    if k == |s| then s
    else if s[k].start < lo then s[..k] + [Lower(s[k], lo)] + Trim([Upper(s[k], lo)] + s[k + 1..], hi)
    else if s[k].start < hi then Trim(s[k..], hi)
    else s
  }

  /** The list after the loop of munmap_range has started at index i; `prev` says whether it knows
      the node before. */
  function Removed(s: Areas, i: nat, hi: int, prev: bool): Areas
    requires i <= |s|
  {
    var t := Trim(s[i..], hi);
    if prev || i == |s| || hi <= s[i].start then s[..i] + t else t
  }

  /** The two ways munmap_range enters its loop give AsCoded. */
  lemma CodedUnsplit(s: Areas, lo: int, hi: int)
    requires var k := FindVma(s, lo); k < |s| ==> lo <= s[k].start
    ensures Removed(s, FindVma(s, lo), hi, false) == AsCoded(s, lo, hi)
  {
    var k := FindVma(s, lo);
    assert s[..k] + s[k..] == s;
    assert k == |s| ==> Trim(s[k..], hi) == s[k..];
  }

  lemma CodedSplit(s: Areas, lo: int, hi: int)
    requires var k := FindVma(s, lo); k < |s| && s[k].start < lo
    ensures Removed(SplitAt(s, FindVma(s, lo), lo), FindVma(s, lo) + 1, hi, true) == AsCoded(s, lo, hi)
  {
    var k := FindVma(s, lo);
    var s1 := SplitAt(s, k, lo);
    SplitParts(s, k, lo);
    assert s1[k + 1] == s1[k + 1..][0];
  }

  lemma SplitParts(s: Areas, k: nat, addr: int)
    requires k < |s|
    ensures SplitAt(s, k, addr)[..k + 1] == s[..k] + [Lower(s[k], addr)]
    ensures SplitAt(s, k, addr)[k + 1..] == [Upper(s[k], addr)] + s[k + 1..]
  {}

  lemma {:induction false} TrimSkips(t: Areas, j: nat, hi: int)
    requires Sorted(t) && j <= |t| && forall m :: 0 <= m < j ==> t[m].end <= hi
    ensures Trim(t, hi) == Trim(t[j..], hi)
  {
    if j == 0 {
      assert t[j..] == t;
    } else {
      assert t[0].start < t[0].end <= hi;
      SortedTail(t);
      assert forall m :: 0 <= m < j - 1 ==> t[1..][m] == t[m + 1];
      TrimSkips(t[1..], j - 1, hi);
      assert t[1..][j - 1..] == t[j..];
    }
  }

  /** Area i unlinked: without a predecessor at hand, everything before it goes too. */
  function Gone(s: Areas, i: nat, prev: bool): Areas
    requires i < |s|
  {
    (if prev then s[..i] else []) + s[i + 1..]
  }

  /** Area i cut at hi and its lower part unlinked. */
  function LowerGone(s: Areas, i: nat, hi: int, prev: bool): Areas
    requires i < |s|
  {
    (if prev then s[..i] else []) + ([Upper(s[i], hi)] + s[i + 1..])
  }

  /** Where the loop stands after j removals that started at index i. */
  function Standing(i: nat, prev: bool, j: nat): nat {
    if prev || j == 0 then i else 0
  }

  /** The list after j removals. */
  function Now(s: Areas, i: nat, prev: bool, j: nat): (r: Areas)
    requires i + j <= |s|
    ensures |r| == Standing(i, prev, j) + |s| - i - j
  {
    if j == 0 then s else Gone(Now(s, i, prev, j - 1), Standing(i, prev, j - 1), prev)
  }

  lemma {:induction false} NowIs(s: Areas, i: nat, prev: bool, j: nat)
    requires i + j <= |s|
    ensures Now(s, i, prev, j) == (if prev || j == 0 then s[..i] else []) + s[i + j..]
  {
    if j == 0 {
      assert s == s[..i] + s[i..];
    } else {
      NowIs(s, i, prev, j - 1);
      GoneIs(if prev || j == 1 then s[..i] else [], s[i + j - 1..], prev);
      assert s[i + j - 1..][1..] == s[i + j..];
    }
  }

  lemma GoneIs(pre: Areas, rest: Areas, prev: bool)
    requires rest != []
    ensures Gone(pre + rest, |pre|, prev) == (if prev then pre else []) + rest[1..]
  {
    ConcatParts(pre, rest);
  }

  /** The area the loop looks at next is the one at i + j of the original list. */
  lemma NowAt(s: Areas, i: nat, prev: bool, j: nat)
    requires i + j < |s|
    ensures Now(s, i, prev, j)[Standing(i, prev, j)] == s[i + j]
  {
    NowIs(s, i, prev, j);
  }

  /** The j areas from i on end by hi; unfolded one at a time. */
  ghost predicate EndBy(s: Areas, i: nat, j: nat, hi: int)
    requires i + j <= |s|
  {
    j == 0 || (s[i + j - 1].end <= hi && EndBy(s, i, j - 1, hi))
  }

  lemma {:induction false} EndByAll(s: Areas, i: nat, j: nat, hi: int)
    requires i + j <= |s| && EndBy(s, i, j, hi)
    ensures forall m :: i <= m < i + j ==> s[m].end <= hi
  {
    if j != 0 {
      EndByAll(s, i, j - 1, hi);
    }
  }

  lemma TrimPast(s: Areas, i: nat, j: nat, hi: int)
    requires Sorted(s) && i + j <= |s| && forall m :: i <= m < i + j ==> s[m].end <= hi
    ensures Trim(s[i..], hi) == Trim(s[i + j..], hi)
    ensures 0 < j ==> s[i].start < hi
  {
    SortedSuffix(s, i);
    TrimSkips(s[i..], j, hi);
    assert s[i..][j..] == s[i + j..];
  }

  /** Areas that end by hi end by the start of the next one. */
  lemma {:induction false} EndByNext(s: Areas, i: nat, j: nat, m: nat)
    requires Sorted(s) && i + j <= m < |s|
    ensures EndBy(s, i, j, s[m].start)
  {
    if j != 0 {
      EndByNext(s, i, j - 1, m);
    }
  }

  /** The loop ran to its end. */
  lemma LoopDone(s: Areas, i: nat, j: nat, hi: int, prev: bool)
    requires Sorted(s) && i + j <= |s| && EndBy(s, i, j, hi)
    requires i + j < |s| ==> hi <= s[i + j].start
    ensures Now(s, i, prev, j) == Removed(s, i, hi, prev)
    ensures |Trim(s[i..], hi)| == |s| - i - j
  {
    EndByAll(s, i, j, hi);
    NowIs(s, i, prev, j);
    TrimPast(s, i, j, hi);
    assert Trim(s[i + j..], hi) == s[i + j..];
  }

  /** The last area was split at hi and its lower part removed. */
  lemma LastPiece(s: Areas, i: nat, j: nat, hi: int, prev: bool)
    requires Sorted(s) && i + j < |s| && EndBy(s, i, j, hi)
    requires s[i + j].start < hi < s[i + j].end
    ensures LowerGone(Now(s, i, prev, j), Standing(i, prev, j), hi, prev) == Removed(s, i, hi, prev)
    ensures |Trim(s[i..], hi)| == |s| - i - j
  {
    var t := [Upper(s[i + j], hi)] + s[i + j + 1..];
    EndByAll(s, i, j, hi);
    TrimPast(s, i, j, hi);
    TrimLast(s, i + j, hi);
    assert Trim(s[i..], hi) == t && s[i].start < hi;
    NowParts(s, i, prev, j);
    assert LowerGone(Now(s, i, prev, j), Standing(i, prev, j), hi, prev) == (if prev then s[..i] else []) + t;
    assert !prev ==> [] + t == t;
  }

  lemma TrimLast(s: Areas, k: nat, hi: int)
    requires k < |s| && s[k].start < hi < s[k].end
    ensures Trim(s[k..], hi) == [Upper(s[k], hi)] + s[k + 1..]
  {
    assert s[k..][1..] == s[k + 1..];
  }

  lemma NowParts(s: Areas, i: nat, prev: bool, j: nat)
    requires i + j < |s|
    ensures var n, k := Now(s, i, prev, j), Standing(i, prev, j);
            n[k] == s[i + j] && n[k + 1..] == s[i + j + 1..] && (prev ==> n[..k] == s[..i])
  {
    NowIs(s, i, prev, j);
    var pre, rest := if prev || j == 0 then s[..i] else [], s[i + j..];
    ConcatParts(pre, rest);
    assert rest[1..] == s[i + j + 1..];
  }

  lemma ConcatParts(pre: Areas, rest: Areas)
    requires rest != []
    ensures (pre + rest)[|pre|] == rest[0]
    ensures (pre + rest)[|pre| + 1..] == rest[1..] && (pre + rest)[..|pre|] == pre
  {}

  /** Page `page` lies in one of the j areas from i on. */
  ghost predicate CoveredBy(s: Areas, i: nat, j: nat, page: int)
    requires i + j <= |s|
  {
    exists m :: i <= m < i + j && Covers(s[m], page)
  }

  lemma PagesGrow(s: Areas, i: nat, j: nat, pages: set<int>, more: set<int>)
    requires i + j < |s|
    requires forall page :: page in pages <==> CoveredBy(s, i, j, page)
    requires forall page :: page in more <==> Covers(s[i + j], page)
    ensures forall page :: page in pages + more <==> CoveredBy(s, i, j + 1, page)
  {}

  lemma LookupFrom(s: Areas, i: nat, page: int)
    requires i <= |s|
    ensures Lookup(s[i..], page).Backed? <==> exists m :: i <= m < |s| && Covers(s[m], page)
  {
    LookupMapped(s[i..], page);
    if exists m :: i <= m < |s| && Covers(s[m], page) {
      var m :| i <= m < |s| && Covers(s[m], page);
      assert s[i..][m - i] == s[m];
    }
  }

  /** The pages collected by the loop are the mapped ones below hi. */
  lemma PagesDone(s: Areas, i: nat, j: nat, hi: int, pages: set<int>)
    requires Sorted(s) && i + j <= |s| && EndBy(s, i, j, hi)
    requires i + j < |s| ==> hi <= s[i + j].start
    requires forall page :: page in pages <==> CoveredBy(s, i, j, page)
    ensures forall page :: page in pages <==> page * PAGE < hi && Lookup(s[i..], page).Backed?
  {
    EndByAll(s, i, j, hi);
    forall page ensures page in pages <==> page * PAGE < hi && Lookup(s[i..], page).Backed? {
      LookupFrom(s, i, page);
      forall m | i + j <= m < |s| && Covers(s[m], page) ensures hi <= page * PAGE {
        assert s[i + j].start <= s[m].start;
      }
    }
  }

  lemma PagesLast(s: Areas, i: nat, j: nat, hi: int, pages: set<int>, more: set<int>)
    requires Sorted(s) && i + j < |s| && EndBy(s, i, j, hi)
    requires s[i + j].start < hi < s[i + j].end
    requires forall page :: page in pages <==> CoveredBy(s, i, j, page)
    requires forall page :: page in more <==> Covers(Lower(s[i + j], hi), page)
    ensures forall page :: page in pages + more <==> page * PAGE < hi && Lookup(s[i..], page).Backed?
  {
    EndByAll(s, i, j, hi);
    forall page ensures page in pages + more <==> page * PAGE < hi && Lookup(s[i..], page).Backed? {
      LookupFrom(s, i, page);
      forall m | i + j < m < |s| && Covers(s[m], page) ensures hi <= page * PAGE {
        assert s[i + j].end <= s[m].start;
      }
    }
  }

  /** How munmap_range enters its loop, at index i of s1: with the first area split at lo, or with s as it was. */
  ghost predicate Entered(s: Areas, s1: Areas, i: nat, lo: int, prev: bool) {
    var k := FindVma(s, lo);
    if prev then k < |s| && s[k].start < lo && s1 == SplitAt(s, k, lo) && i == k + 1
    else (k < |s| ==> lo <= s[k].start) && s1 == s && i == k
  }

  lemma EnteredCoded(s: Areas, s1: Areas, i: nat, lo: int, hi: int, prev: bool)
    requires Entered(s, s1, i, lo, prev)
    ensures i <= |s1| && Removed(s1, i, hi, prev) == AsCoded(s, lo, hi)
  {
    if prev {
      CodedSplit(s, lo, hi);
    } else {
      CodedUnsplit(s, lo, hi);
    }
  }

  /** The loop ran to its end. */
  lemma Finished(s: Areas, s1: Areas, i: nat, lo: int, hi: int, prev: bool)
    requires Sorted(s) && lo % PAGE == 0 && hi % PAGE == 0 && lo <= hi && Entered(s, s1, i, lo, prev)
    ensures i <= |s1| && Removed(s1, i, hi, prev) == AsCoded(s, lo, hi)
    ensures |s1| - |s1[i..]| + |Trim(s1[i..], hi)| == |Cut(s, lo, hi)|
  {
    AsCodedIsCut(s, lo, hi);
    EnteredCoded(s, s1, i, lo, hi, prev);
  }

  /** The pages the loop covers are the mapped ones of the range. */
  lemma FinishedPages(s: Areas, s1: Areas, i: nat, lo: int, hi: int, prev: bool)
    requires Sorted(s) && lo % PAGE == 0 && Entered(s, s1, i, lo, prev)
    ensures i <= |s1|
    ensures forall page :: page * PAGE < hi && Lookup(s1[i..], page).Backed? <==>
                           InRange(page, lo, hi) && Lookup(s, page).Backed?
  {
    if prev {
      SplitAbove(s, i - 1, lo, hi);
    } else {
      AllAbove(s, i, lo, hi);
    }
  }

  lemma AllAbove(s: Areas, k: nat, lo: int, hi: int)
    requires Sorted(s) && k <= |s| && (k < |s| ==> lo <= s[k].start) && forall i :: 0 <= i < k ==> s[i].end <= lo
    ensures forall page :: page * PAGE < hi && Lookup(s[k..], page).Backed? <==>
                           InRange(page, lo, hi) && Lookup(s, page).Backed?
  {
    forall page
      ensures page * PAGE < hi && Lookup(s[k..], page).Backed? <==> InRange(page, lo, hi) && Lookup(s, page).Backed?
    {
      AboveOnly(s, k, lo, page);
    }
  }

  lemma SplitAbove(s: Areas, k: nat, lo: int, hi: int)
    requires Sorted(s) && k < |s| && lo % PAGE == 0 && s[k].start < lo < s[k].end
    ensures forall page :: page * PAGE < hi && Lookup(SplitAt(s, k, lo)[k + 1..], page).Backed? <==>
                           InRange(page, lo, hi) && Lookup(s, page).Backed?
  {
    SplitKeeps(s, k, lo);
    var s1 := SplitAt(s, k, lo);
    assert s1[k].end == lo && s1[k + 1].start == lo;
    forall page
      ensures page * PAGE < hi && Lookup(s1[k + 1..], page).Backed? <==>
                InRange(page, lo, hi) && Lookup(s, page).Backed?
    {
      SplitPages(s, k, lo, page);
      AboveOnly(s1, k + 1, lo, page);
    }
  }

  lemma AboveOnly(s: Areas, k: nat, lo: int, page: int)
    requires Sorted(s) && k <= |s| && (k < |s| ==> lo <= s[k].start) && forall i :: 0 <= i < k ==> s[i].end <= lo
    ensures Lookup(s[k..], page).Backed? <==> lo <= page * PAGE && Lookup(s, page).Backed?
  {
    LookupFrom(s, k, page);
    LookupMapped(s, page);
    forall m | k <= m < |s| && Covers(s[m], page) ensures lo <= page * PAGE {
      assert m == k || s[k].end <= s[m].start;
    }
  }

  /** The guard of the failing branch: the first area to go starts inside the range and is not the head. */
  predicate LosesHead(s: Areas, lo: int, hi: int) {
    var k := FindVma(s, lo);
    0 < k < |s| && lo <= s[k].start < hi
  }

  lemma {:induction false} TrimIsCut(t: Areas, lo: int, hi: int)
    requires Sorted(t) && (t != [] ==> lo <= t[0].start) && lo <= hi
    ensures Trim(t, hi) == Cut(t, lo, hi)
  {
    if t == [] {
    } else if hi <= t[0].start {
      CutNothing(t, lo, hi);
    } else if hi < t[0].end {
      assert Pieces(t[0], lo, hi) == [Upper(t[0], hi)];
      CutNothing(t[1..], lo, hi);
    } else {
      assert Pieces(t[0], lo, hi) == [];
      SortedTail(t);
      TrimIsCut(t[1..], lo, hi);
      assert [] + Cut(t[1..], lo, hi) == Cut(t[1..], lo, hi);
    }
  }

  lemma FirstOverlap(s: Areas, lo: int, hi: int)
    requires Sorted(s) && lo % PAGE == 0 && lo <= hi
    ensures var k := FindVma(s, lo);
            Cut(s, lo, hi) == s[..k] + Cut(s[k..], lo, hi)
  {
    var k := FindVma(s, lo);
    assert s == s[..k] + s[k..];
    CutConcat(s[..k], s[k..], lo, hi);
    CutNothing(s[..k], lo, hi);
  }

  /** As coded, munmap_range subtracts the interval, except that it may drop what lies before. */
  lemma AsCodedIsCut(s: Areas, lo: int, hi: int)
    requires Sorted(s) && lo % PAGE == 0 && hi % PAGE == 0 && lo <= hi
    ensures var k := FindVma(s, lo);
            Cut(s, lo, hi) == if LosesHead(s, lo, hi) then s[..k] + AsCoded(s, lo, hi) else AsCoded(s, lo, hi)
  {
    var k := FindVma(s, lo);
    FirstOverlap(s, lo, hi);
    if k < |s| && s[k].start < lo {
      TailCut(s, k, lo, hi);
    } else if k < |s| && s[k].start < hi {
      InsideCut(s, k, lo, hi);
    } else {
      OutsideCut(s, k, lo, hi);
    }
  }

  lemma InsideCut(s: Areas, k: nat, lo: int, hi: int)
    requires Sorted(s) && k < |s| && lo <= s[k].start < hi
    ensures Cut(s[k..], lo, hi) == Trim(s[k..], hi)
    ensures k == 0 ==> s[..k] + Trim(s[k..], hi) == Trim(s[k..], hi)
  {
    SortedSuffix(s, k);
    TrimIsCut(s[k..], lo, hi);
  }

  lemma OutsideCut(s: Areas, k: nat, lo: int, hi: int)
    requires Sorted(s) && k <= |s| && (k < |s| ==> hi <= s[k].start)
    ensures s[..k] + Cut(s[k..], lo, hi) == s
  {
    var t := s[k..];
    forall i | 0 <= i < |t| ensures hi <= t[i].start {
      assert t[i] == s[k + i];
      assert i == 0 || s[k].end <= s[k + i].start;
    }
    CutNothing(t, lo, hi);
    assert s[..k] + t == s;
  }

  lemma TailCut(s: Areas, k: nat, lo: int, hi: int)
    requires Sorted(s) && k < |s| && lo % PAGE == 0 && hi % PAGE == 0 && s[k].start < lo < s[k].end && lo <= hi
    ensures s[..k] + Cut(s[k..], lo, hi) == s[..k] + [Lower(s[k], lo)] + Trim([Upper(s[k], lo)] + s[k + 1..], hi)
  {
    UpperPages(s[k], lo, 0);
    var up, rest := Upper(s[k], lo), s[k + 1..];
    assert s[k..] == [s[k]] + rest;
    SortedSuffix(s, k + 1);
    SortedConcat([up], rest);
    TrimIsCut([up] + rest, lo, hi);
    SplitCut(s[k], rest, lo, hi);
  }

  lemma SplitCut(a: Area, rest: Areas, lo: int, hi: int)
    requires Aligned(a) && lo % PAGE == 0 && hi % PAGE == 0 && a.start < lo < a.end && lo <= hi
    ensures Cut([a] + rest, lo, hi) == [Lower(a, lo)] + Cut([Upper(a, lo)] + rest, lo, hi)
  {
    var up := Upper(a, lo);
    assert ([a] + rest)[1..] == rest && ([up] + rest)[1..] == rest;
    SplitPieces(a, lo, hi);
  }

  lemma SplitPieces(a: Area, lo: int, hi: int)
    requires Aligned(a) && lo % PAGE == 0 && hi % PAGE == 0 && a.start < lo < a.end && lo <= hi
    ensures Pieces(a, lo, hi) == [Lower(a, lo)] + Pieces(Upper(a, lo), lo, hi)
  {
    var up := Upper(a, lo);
    if lo < hi < a.end {
      UpperTwice(a, lo, hi);
      assert Pieces(up, lo, hi) == [] + [Upper(up, hi)] == [Upper(up, hi)];
    } else if hi == lo {
      assert Pieces(up, lo, hi) == [up];
    } else {
      assert Pieces(up, lo, hi) == [];
    }
  }

  lemma UpperTwice(a: Area, lo: int, hi: int)
    requires Aligned(a) && lo % PAGE == 0 && hi % PAGE == 0
    ensures Upper(Upper(a, lo), hi) == Upper(a, hi)
  {
    PagesAdd(lo - a.start, hi - lo);
  }

  lemma PagesAdd(x: int, y: int)
    requires x % PAGE == 0 && y % PAGE == 0
    ensures (x + y) / PAGE == x / PAGE + y / PAGE
  {}

  /** munmap_range is interval subtraction exactly when it does not lose the head. */
  lemma MunmapExact(s: Areas, lo: int, hi: int)
    requires Sorted(s) && lo % PAGE == 0 && hi % PAGE == 0 && lo <= hi
    ensures (forall page :: Lookup(AsCoded(s, lo, hi), page) == Remaining(s, lo, hi, page)) <==> !LosesHead(s, lo, hi)
  {
    AsCodedIsCut(s, lo, hi);
    var k := FindVma(s, lo);
    if LosesHead(s, lo, hi) {
      var page := s[0].start / PAGE;
      assert Covers(s[0], page) && !InRange(page, lo, hi);
      SortedSuffix(s, k);
      CutPages(s[k..], lo, hi, page);
      TrimIsCut(s[k..], lo, hi);
      NotBelow(s[k..], page);
      assert Lookup(AsCoded(s, lo, hi), page) == Unmapped;
      assert Remaining(s, lo, hi, page).Backed?;
    } else {
      forall page ensures Lookup(AsCoded(s, lo, hi), page) == Remaining(s, lo, hi, page) {
        CutPages(s, lo, hi, page);
      }
    }
  }

  lemma {:induction false} NotBelow(t: Areas, page: int)
    requires Sorted(t) && (t != [] ==> page * PAGE < t[0].start)
    ensures Lookup(t, page) == Unmapped
  {
    if t != [] {
      SortedTail(t);
      NotBelow(t[1..], page);
    }
  }

  /** Three pages in three areas; removing the middle one loses the first as well. */
  lemma MunmapLosesPages()
    ensures exists s: Areas, lo: int, hi: int, page: int ::
              && Sorted(s) && OffsetsFollow(s) && lo % PAGE == 0 && hi % PAGE == 0 && lo < hi
              && !InRange(page, lo, hi) && Lookup(s, page).Backed? && Lookup(AsCoded(s, lo, hi), page) == Unmapped
  {
    var a, b, c := Area(0x1000, 0x2000, 1, 1), Area(0x2000, 0x3000, 2, 1), Area(0x3000, 0x4000, 3, 1);
    var s, lo, hi := [a, b, c], 0x2000, 0x3000;
    assert Sorted(s) && OffsetsFollow(s);
    assert s[1..] == [b, c] && s[1..][1..] == [c];
    assert FindVma([b, c], lo) == 0;
    assert FindVma(s, lo) == 1;
    assert Covers(a, 1) && PageOf(a, 1).Backed?;
    assert AsCoded(s, lo, hi) == Trim([b, c], hi);
    assert [b, c][1..] == [c] && Trim([b, c], hi) == Trim([c], hi) == [c];
    LookupOne(c, 1);
    assert !InRange(1, lo, hi);
  }

  // ---------------------------------------------------------------- insertion

  /** The first area that does not start before addr, or |s|. */
  function InsertPos(s: Areas, addr: int): (k: nat)
    ensures k <= |s|
    ensures k < |s| ==> addr <= s[k].start
    ensures forall i :: 0 <= i < k ==> s[i].start < addr
  {
    if s == [] || addr <= s[0].start then 0
    else
      var k := InsertPos(s[1..], addr);
      assert forall i :: 1 <= i < 1 + k ==> s[i] == s[1..][i - 1];
      1 + k
  }

  ghost predicate Overlaps(s: Areas, v: Area) {
    exists i :: 0 <= i < |s| && s[i].start < v.end && v.start < s[i].end
  }

  /** The two comparisons insert_vm_struct makes. */
  predicate NeighboursClear(s: Areas, v: Area) {
    var k := InsertPos(s, v.start);
    (0 < k ==> s[k - 1].end <= v.start) && (k < |s| ==> v.end <= s[k].start)
  }

  /** Looking at the two neighbours is enough to find any overlap. */
  lemma NeighboursSuffice(s: Areas, v: Area)
    requires Sorted(s) && v.start < v.end
    ensures NeighboursClear(s, v) <==> !Overlaps(s, v)
  {
    var k := InsertPos(s, v.start);
    if NeighboursClear(s, v) {
      forall i | 0 <= i < |s| ensures !(s[i].start < v.end && v.start < s[i].end) {
        if i < k {
          assert s[i].end <= s[k - 1].end;
        } else {
          assert s[k].start <= s[i].start;
        }
      }
    } else if 0 < k && v.start < s[k - 1].end {
      assert s[k - 1].start < v.end;
    } else {
      assert s[k].start < v.end && v.start < s[k].end;
    }
  }

  function Inserted(s: Areas, v: Area): Areas {
    var k := InsertPos(s, v.start);
    s[..k] + [v] + s[k..]
  }

  lemma InsertKeeps(s: Areas, v: Area)
    requires Sorted(s) && Aligned(v) && NeighboursClear(s, v)
    ensures Sorted(Inserted(s, v))
    ensures OffsetsFollow(s) && v.pgoff == v.start / PAGE ==> OffsetsFollow(Inserted(s, v))
  {
    InsertAt(s, v, InsertPos(s, v.start));
  }

  lemma InsertAt(s: Areas, v: Area, k: nat)
    requires Sorted(s) && Aligned(v) && k <= |s|
    requires 0 < k ==> s[k - 1].end <= v.start
    requires k < |s| ==> v.end <= s[k].start
    ensures Sorted(s[..k] + [v] + s[k..])
    ensures OffsetsFollow(s) && v.pgoff == v.start / PAGE ==> OffsetsFollow(s[..k] + [v] + s[k..])
  {
    var u := s[..k] + [v] + s[k..];
    forall i | 0 <= i < |u| ensures u[i] == At(s, v, k, i) && Aligned(u[i]) {
    }
    forall i, j | 0 <= i < j < |u| ensures u[i].end <= u[j].start {
      InsertOrder(s, v, k, i, j);
    }
    if OffsetsFollow(s) && v.pgoff == v.start / PAGE {
      forall i | 0 <= i < |u| ensures u[i].pgoff == u[i].start / PAGE {
        assert u[i] == At(s, v, k, i);
      }
    }
  }

  /** Element i of s with v inserted at k. */
  function At(s: Areas, v: Area, k: nat, i: nat): Area
    requires k <= |s| && i <= |s|
  {
    if i < k then s[i] else if i == k then v else s[i - 1]
  }

  lemma InsertOrder(s: Areas, v: Area, k: nat, i: nat, j: nat)
    requires Sorted(s) && Aligned(v) && k <= |s| && i < j <= |s|
    requires 0 < k ==> s[k - 1].end <= v.start
    requires k < |s| ==> v.end <= s[k].start
    ensures At(s, v, k, i).end <= At(s, v, k, j).start
  {
    if 0 < k {
      assert Aligned(s[k - 1]);
      assert i < k - 1 ==> s[i].end <= s[k - 1].start;
    }
    if k < |s| {
      assert Aligned(s[k]);
      assert k < j - 1 ==> s[k].end <= s[j - 1].start;
    }
  }

  lemma InsertPages(s: Areas, v: Area, page: int)
    requires Sorted(s) && Aligned(v) && NeighboursClear(s, v)
    ensures Lookup(Inserted(s, v), page) == if Covers(v, page) then PageOf(v, page) else Lookup(s, page)
  {
    var k := InsertPos(s, v.start);
    assert s[..k] + s[k..] == s;
    LookupConcat(s[..k], s[k..], page);
    LookupBetween(s[..k], v, s[k..], page);
    if Covers(v, page) {
      BelowUncovered(s, v, k, page);
    }
  }

  lemma LookupBetween(pre: Areas, v: Area, post: Areas, page: int)
    ensures Lookup(pre + [v] + post, page) ==
            if Lookup(pre, page).Backed? then Lookup(pre, page)
            else if Covers(v, page) then PageOf(v, page) else Lookup(post, page)
  {
    LookupOne(v, page);
    LookupConcat(pre + [v], post, page);
    LookupConcat(pre, [v], page);
  }

  /** What lies before a new area says nothing about its pages. */
  lemma BelowUncovered(s: Areas, v: Area, k: nat, page: int)
    requires Sorted(s) && k <= |s| && (0 < k ==> s[k - 1].end <= v.start) && Covers(v, page)
    ensures Lookup(s[..k], page) == Unmapped
  {
    var pre := s[..k];
    LookupMapped(pre, page);
    forall i | 0 <= i < k ensures !Covers(pre[i], page) {
      assert pre[i] == s[i];
      assert i == k - 1 || s[i].end <= s[k - 1].start;
      assert k > 0 && Aligned(s[k - 1]);
    }
  }

  // ---------------------------------------------------------------- gap search

  const SEARCH_START := 0x2000_0000
  const SEARCH_END := 0xF000_0000

  /** [a, a + need) misses every area. */
  ghost predicate FreeAt(s: Areas, a: int, need: int) {
    forall i :: 0 <= i < |s| ==> s[i].end <= a || a + need <= s[i].start
  }

  /** A page-aligned place for `need` bytes inside the search window. */
  ghost predicate Place(s: Areas, a: int, need: int) {
    SEARCH_START <= a && a % PAGE == 0 && a + need < SEARCH_END && FreeAt(s, a, need)
  }

  /** What unmapped_area should answer: the lowest place, 0 when there is none. */
  ghost predicate LowestPlace(s: Areas, need: int, r: int) {
    if exists a :: Place(s, a, need)
    then Place(s, r, need) && forall a :: Place(s, a, need) ==> r <= a
    else r == 0
  }

  /** The address the search moves to after area i. */
  function Candidate(s: Areas, i: nat): int
    requires i < |s|
  {
    if s[i].end > SEARCH_START then s[i].end else SEARCH_START
  }

  /** Some candidate plus `need` reaches the end of the window without wrapping at 2^32: the point
      where the search notices that it has failed. */
  ghost predicate Noticed(s: Areas, need: int) {
    if s == [] then SEARCH_END <= SEARCH_START + need < TWO32
    else exists i :: 0 <= i < |s| && SEARCH_END <= Candidate(s, i) + need < TWO32
  }

  /** What the search knows after i areas, at candidate addr. */
  ghost predicate Searched(s: Areas, i: nat, addr: int, need: int)
    requires i <= |s|
  {
    && addr == (if i == 0 then SEARCH_START else Candidate(s, i - 1))
    && (forall j :: 0 <= j < i ==> s[j].end <= addr)
    && (forall a :: Place(s, a, need) ==> addr <= a)
    && (forall j :: 0 <= j < i ==> !(SEARCH_END <= Candidate(s, j) + need < TWO32))
  }

  /** Moving past area i, when it ends beyond the candidate, leads to the next candidate. */
  lemma CandidateIs(s: Areas, i: nat, addr: int, need: int)
    requires Sorted(s) && i < |s| && Searched(s, i, addr, need)
    ensures Candidate(s, i) == if s[i].end > addr then AlignUp(s[i].end, PAGE) else addr
  {
    assert Aligned(s[i]);
    if 0 < i {
      assert s[i - 1].end <= s[i].start;
    }
  }

  /** The comparison the search makes, with its wrap. */
  lemma WrapAt(addr: int, need: int)
    requires 0 <= addr <= SEARCH_END && 0 < need <= TWO32 - PAGE
    ensures Wrap32(addr + need) >= SEARCH_END <==> SEARCH_END <= addr + need < TWO32
  {}

  /** What unmapped_area promises about its answer r. */
  ghost predicate Answer(s: Areas, need: int, r: int) {
    && (LowestPlace(s, need, r) <==> (exists a :: Place(s, a, need)) || Noticed(s, need))
    && (r == 0 || (SEARCH_START <= r <= SEARCH_END && r % PAGE == 0))
    && (r != 0 && r + need < TWO32 ==> LowestPlace(s, need, r))
  }

  lemma PlaceAnswers(s: Areas, need: int, r: int)
    requires Place(s, r, need) && 0 < need && forall a :: Place(s, a, need) ==> r <= a
    ensures Answer(s, need, r)
  {}

  lemma SearchFound(s: Areas, i: nat, addr: int, need: int)
    requires Sorted(s) && i < |s| && Searched(s, i, addr, need) && s[i].end <= SEARCH_END
    requires 0 < need && addr < s[i].start && s[i].start - addr >= need
    ensures Answer(s, need, addr)
  {
    assert Aligned(s[i]);
    assert i > 0 ==> Aligned(s[i - 1]);
    assert Place(s, addr, need);
    PlaceAnswers(s, need, addr);
  }

  lemma SearchNext(s: Areas, i: nat, addr: int, need: int)
    requires Sorted(s) && i < |s| && Searched(s, i, addr, need) && 0 < need
    requires !(addr < s[i].start && s[i].start - addr >= need)
    requires !(SEARCH_END <= Candidate(s, i) + need < TWO32)
    ensures Searched(s, i + 1, Candidate(s, i), need)
  {
    var from, to := s[i].start, s[i].end;
    assert forall a :: Place(s, a, need) ==> to <= a || a + need <= from;
    assert addr <= Candidate(s, i);
  }

  lemma SearchFails(s: Areas, i: nat, addr: int, need: int)
    requires Sorted(s) && i < |s| && Searched(s, i, addr, need) && 0 < need
    requires !(addr < s[i].start && s[i].start - addr >= need)
    requires SEARCH_END <= Candidate(s, i) + need < TWO32
    ensures Answer(s, need, 0)
  {
    var from, to := s[i].start, s[i].end;
    assert forall a :: Place(s, a, need) ==> to <= a || a + need <= from;
    assert forall a :: !Place(s, a, need);
    assert Noticed(s, need);
  }

  lemma SearchEnds(s: Areas, addr: int, need: int)
    requires Sorted(s) && Searched(s, |s|, addr, need) && 0 < need <= TWO32 - PAGE && addr <= SEARCH_END
    ensures Answer(s, need, if Wrap32(addr + need) < SEARCH_END then addr else 0)
  {
    assert s != [] ==> Aligned(s[|s| - 1]);
    if addr + need < SEARCH_END {
      assert Place(s, addr, need);
      PlaceAnswers(s, need, addr);
    } else {
      assert forall a :: !Place(s, a, need);
      EndNoticed(s, addr, need);
    }
  }

  /** At the end of the list a failing search is noticed exactly when the addition does not wrap. */
  lemma EndNoticed(s: Areas, addr: int, need: int)
    requires Searched(s, |s|, addr, need) && 0 < need <= TWO32 - PAGE && addr <= SEARCH_END
    requires SEARCH_END <= addr + need
    ensures Noticed(s, need) <==> addr + need < TWO32
    ensures Wrap32(addr + need) < SEARCH_END <==> TWO32 <= addr + need
  {
    assert s != [] ==> addr == Candidate(s, |s| - 1);
  }

  lemma AnswerArea(s: Areas, r: int, need: int)
    requires 0 < need < TWO32 && need % PAGE == 0 && r != 0 && Answer(s, need, r)
    ensures Wrap32(r + need) > r ==>
              Wrap32(r + need) == r + need && (r + need) % PAGE == 0 && r % PAGE == 0 && LowestPlace(s, need, r)
  {
    assert 0 <= r <= SEARCH_END && r % PAGE == 0;
    WrapPast(r, need);
    AlignedSum(r, need);
  }

  lemma AlignedSum(x: int, y: int)
    requires x % PAGE == 0 && y % PAGE == 0
    ensures (x + y) % PAGE == 0
  {}

  lemma WrapPast(r: int, need: int)
    requires 0 <= r < TWO32 && 0 <= need < TWO32
    ensures Wrap32(r + need) == if r + need < TWO32 then r + need else r + need - TWO32
  {}

  /** A request that does wrap: nothing fits, and the search does not notice. */
  lemma LargeRequestUnnoticed()
    ensures exists need :: 0 < need < TWO32 && need % PAGE == 0 && !Noticed([], need) && forall a :: !Place([], a, need)
  {
    var need := 0xE000_0000;
    assert !Noticed([], need) && forall a :: !Place([], a, need);
  }

  /** A request below 256 MiB never wraps, so a failing search always notices. */
  lemma SmallRequestsNoticed(s: Areas, need: int)
    requires Sorted(s) && 0 < need < TWO32 - SEARCH_END
    requires forall i :: 0 <= i < |s| ==> s[i].end <= SEARCH_END
    requires forall a :: !Place(s, a, need)
    ensures Noticed(s, need)
  {
    if s == [] {
      assert Place(s, SEARCH_START, need);
    } else {
      var last := |s| - 1;
      var c := Candidate(s, last);
      if c + need < SEARCH_END {
        assert s[last].end % PAGE == 0;
        assert Place(s, c, need);
      }
      assert SEARCH_END <= Candidate(s, last) + need < TWO32;
    }
  }

  // ---------------------------------------------------------------- where memory for a split is needed

  /** The address lies strictly inside some area from index i on. */
  ghost predicate InsideFrom(s: Areas, i: int, addr: int) {
    exists j :: 0 <= i <= j < |s| && s[j].start < addr < s[j].end
  }

  /** find_vma finds the area an address lies strictly inside of. */
  lemma InsideFirst(s: Areas, addr: int)
    requires Sorted(s)
    ensures InsideFrom(s, 0, addr) <==> var k := FindVma(s, addr); k < |s| && s[k].start < addr
  {
    var k := FindVma(s, addr);
    if InsideFrom(s, 0, addr) {
      var j :| 0 <= j < |s| && s[j].start < addr < s[j].end;
      forall i | 0 <= i < j ensures s[i].end <= addr {
        assert s[i].end <= s[j].start;
      }
      assert k == j;
    }
  }

  /** Splitting off what lies before lo does not change what hi lies inside of. */
  lemma EnteredInside(s: Areas, s1: Areas, i: nat, lo: int, hi: int, prev: bool)
    requires Sorted(s) && lo % PAGE == 0 && lo < hi && Entered(s, s1, i, lo, prev)
    ensures InsideFrom(s1, i, hi) <==> InsideFrom(s, 0, hi)
  {
    if prev {
      SplitInside(s, i - 1, lo, hi);
    } else if InsideFrom(s, 0, hi) {
      var j :| 0 <= j < |s| && s[j].start < hi < s[j].end;
      assert i <= j;
    }
  }

  lemma SplitInside(s: Areas, k: nat, lo: int, hi: int)
    requires Sorted(s) && k < |s| && s[k].start < lo < s[k].end && lo < hi
    requires forall i :: 0 <= i < k ==> s[i].end <= lo
    ensures InsideFrom(SplitAt(s, k, lo), k + 1, hi) <==> InsideFrom(s, 0, hi)
  {
    var s1 := SplitAt(s, k, lo);
    assert s1[k + 1] == Upper(s[k], lo);
    assert forall j :: k + 2 <= j < |s1| ==> s1[j] == s[j - 1];
    if InsideFrom(s, 0, hi) {
      var j :| 0 <= j < |s| && s[j].start < hi < s[j].end;
      assert k <= j;
      assert s1[j + 1].start < hi < s1[j + 1].end;
    }
    if InsideFrom(s1, k + 1, hi) {
      var j :| k + 1 <= j < |s1| && s1[j].start < hi < s1[j].end;
      assert s[j - 1].start < hi < s[j - 1].end;
    }
  }

  /** Where the loop of munmap_range, started at area i, gets to: hi, or the start of the area hi lies
      inside of when no node for its upper part can be had. */
  function StopAt(s: Areas, i: nat, hi: int, node: bool): int {
    var k := FindVma(s, hi);
    if !node && i <= k < |s| && s[k].start < hi then s[k].start else hi
  }

  /** The end of the range munmap_range really treats. */
  function Reached(s: Areas, lo: int, hi: int, node: bool): int {
    var k := FindVma(s, hi);
    if node || k == |s| || hi <= s[k].start then hi
    else if lo < s[k].start then s[k].start else lo
  }

  /** munmap_range gives up before it changes anything: there is no node to split the first area. */
  predicate Starved(s: Areas, lo: int, node: bool) {
    var k := FindVma(s, lo);
    !node && k < |s| && s[k].start < lo
  }

  lemma ReachedIn(s: Areas, lo: int, hi: int, node: bool)
    requires Sorted(s) && lo % PAGE == 0 && hi % PAGE == 0 && lo <= hi
    ensures lo <= Reached(s, lo, hi, node) <= hi && Reached(s, lo, hi, node) % PAGE == 0
    ensures Reached(s, lo, hi, node) == hi <==> lo == hi || node || !InsideFrom(s, 0, hi)
    ensures forall j :: 0 <= j < |s| && s[j].start < hi < s[j].end && !node ==>
              Reached(s, lo, hi, node) == if lo < s[j].start then s[j].start else lo
    ensures Starved(s, lo, node) <==> !node && InsideFrom(s, 0, lo)
  {
    InsideFirst(s, lo);
    InsideFirst(s, hi);
    forall j | 0 <= j < |s| && s[j].start < hi < s[j].end ensures j == FindVma(s, hi) {
      forall i | 0 <= i < j ensures s[i].end <= hi {
        assert s[i].end <= s[j].start;
      }
      FindIs(s, hi, j);
    }
  }

  /** The loop stops where munmap_range as a whole does. */
  lemma EnteredStop(s: Areas, s1: Areas, i: nat, lo: int, hi: int, prev: bool, node: bool)
    requires Sorted(s) && lo % PAGE == 0 && lo < hi && Entered(s, s1, i, lo, prev)
    ensures StopAt(s1, i, hi, node) == Reached(s, lo, hi, node)
  {
    if prev {
      SplitStop(s, i - 1, lo, hi, node);
    } else {
      FindFurther(s, lo, hi);
    }
  }

  lemma FindFurther(s: Areas, lo: int, hi: int)
    requires lo <= hi
    ensures FindVma(s, lo) <= FindVma(s, hi)
  {}

  lemma SplitStop(s: Areas, k: nat, lo: int, hi: int, node: bool)
    requires Sorted(s) && k < |s| && s[k].start < lo < s[k].end && lo < hi
    requires forall i :: 0 <= i < k ==> s[i].end <= lo
    ensures StopAt(SplitAt(s, k, lo), k + 1, hi, node) == Reached(s, lo, hi, node)
  {
    var f := FindVma(s, hi);
    SplitFind(s, k, lo, hi);
    if k < f < |s| {
      assert s[k].end <= s[f].start;
    }
  }

  lemma SplitFind(s: Areas, k: nat, lo: int, hi: int)
    requires Sorted(s) && k < |s| && s[k].start < lo < s[k].end && lo < hi
    requires forall i :: 0 <= i < k ==> s[i].end <= lo
    ensures k <= FindVma(s, hi) && FindVma(SplitAt(s, k, lo), hi) == FindVma(s, hi) + 1
    ensures SplitAt(s, k, lo)[k + 1] == Upper(s[k], lo)
    ensures forall j :: k + 2 <= j <= |s| ==> SplitAt(s, k, lo)[j] == s[j - 1]
  {
    var s1, f := SplitAt(s, k, lo), FindVma(s, hi);
    assert s1[k + 1] == Upper(s[k], lo) && s1[k] == Lower(s[k], lo);
    assert forall j :: k + 2 <= j < |s1| ==> s1[j] == s[j - 1];
    assert k <= f;
    FindIs(s1, hi, f + 1);
  }

  lemma FindIs(s: Areas, addr: int, k: nat)
    requires k <= |s| && (k < |s| ==> addr < s[k].end) && forall i :: 0 <= i < k ==> s[i].end <= addr
    ensures FindVma(s, addr) == k
  {}

  /** The loop of munmap_range ended without meeting an area that reaches past hi. */
  lemma NoneInside(s: Areas, i: nat, j: nat, hi: int)
    requires Sorted(s) && i + j <= |s| && EndBy(s, i, j, hi)
    requires i + j < |s| ==> hi <= s[i + j].start
    ensures !InsideFrom(s, i, hi)
  {
    EndByAll(s, i, j, hi);
    forall m | i <= m < |s| ensures !(s[m].start < hi < s[m].end) {
      assert i + j < m ==> s[i + j].end <= s[m].start;
    }
  }

  /** The count munmap_range leaves is that of the list exactly when it does not lose the head. */
  lemma CountExact(s: Areas, lo: int, hi: int)
    requires Sorted(s) && lo % PAGE == 0 && hi % PAGE == 0 && lo <= hi
    ensures |Cut(s, lo, hi)| == |AsCoded(s, lo, hi)| <==> !LosesHead(s, lo, hi)
    ensures !LosesHead(s, lo, hi) ==> AsCoded(s, lo, hi) == Cut(s, lo, hi) && Sorted(AsCoded(s, lo, hi))
  {
    AsCodedIsCut(s, lo, hi);
    CutKeeps(s, lo, hi);
  }

  // ---------------------------------------------------------------- head insertion

  /** The new area would have to come before the first one. */
  predicate BeforeHead(s: Areas, v: Area) {
    s != [] && v.start <= s[0].start
  }

  /** One page at 0x30000000: the lowest place for another lies below it, so that automatic placement
      runs into the head insertion that insert_vm_struct rejects. */
  lemma AutomaticBeforeHead()
    ensures var s := [Area(0x3000_0000, 0x3000_1000, 0x3_0000, 17)];
            var v := Area(SEARCH_START, SEARCH_START + PAGE, SEARCH_START / PAGE, 17);
            Sorted(s) && LowestPlace(s, PAGE, v.start) && !Overlaps(s, v) && BeforeHead(s, v)
  {
    var s := [Area(0x3000_0000, 0x3000_1000, 0x3_0000, 17)];
    assert Place(s, SEARCH_START, PAGE);
  }

  // ---------------------------------------------------------------- whole runs

  /** An area handed to insert_vm_struct by mmap_anonymous, or a page-aligned range to unmap; `first` and
      `second` tell whether a node is to be had for the split at its start and at its end. */
  datatype Op = DoMap(area: Area) | DoUnmap(lo: int, hi: int, first: bool, second: bool)

  /** mm_struct: its list and map_count, or a head that points at freed memory. */
  datatype Space = Space(areas: Areas, count: int) | Dangling

  predicate Proper(op: Op) {
    match op
    case DoMap(v) => Aligned(v) && v.pgoff == v.start / PAGE
    case DoUnmap(lo, hi, first, second) => lo % PAGE == 0 && hi % PAGE == 0 && lo < hi
  }

  /** The list and map_count once the loop of munmap_range has got to `stop`. */
  function UnmapTo(m: Space, lo: int, stop: int): Space
    requires m.Space?
  {
    Space(AsCoded(m.areas, lo, stop), m.count - |m.areas| + |Cut(m.areas, lo, stop)|)
  }

  ghost function Step(m: Space, op: Op): Space {
    if m.Dangling? then m else
    match op
    case DoMap(v) =>
      if Overlaps(m.areas, v) then m
      else if BeforeHead(m.areas, v) then Dangling
      else Space(Inserted(m.areas, v), m.count + 1)
    case DoUnmap(lo, hi, first, second) =>
      if Starved(m.areas, lo, first) then m else UnmapTo(m, lo, Reached(m.areas, lo, hi, second))
  }

  /** What every caller relies on. */
  ghost predicate InOrder(m: Space) {
    m.Space? && Sorted(m.areas) && OffsetsFollow(m.areas) && m.count == |m.areas|
  }

  /** The two calls that break it. */
  ghost predicate Breaks(m: Space, op: Op) {
    m.Dangling? ||
    match op
    case DoMap(v) => !Overlaps(m.areas, v) && BeforeHead(m.areas, v)
    case DoUnmap(lo, hi, first, second) =>
      !Starved(m.areas, lo, first) && LosesHead(m.areas, lo, Reached(m.areas, lo, hi, second))
  }

  /** One call keeps the list in order exactly when it is none of the two. */
  lemma StepInOrder(m: Space, op: Op)
    requires InOrder(m) && Proper(op)
    ensures InOrder(Step(m, op)) <==> !Breaks(m, op)
  {
    match op
    case DoMap(v) =>
      if !Overlaps(m.areas, v) && !BeforeHead(m.areas, v) {
        NeighboursSuffice(m.areas, v);
        InsertKeeps(m.areas, v);
      }
    case DoUnmap(lo, hi, first, second) =>
      ReachedIn(m.areas, lo, hi, second);
      UnmapInOrder(m, lo, Reached(m.areas, lo, hi, second));
  }

  lemma UnmapInOrder(m: Space, lo: int, stop: int)
    requires InOrder(m) && lo % PAGE == 0 && stop % PAGE == 0 && lo <= stop
    ensures InOrder(UnmapTo(m, lo, stop)) <==> !LosesHead(m.areas, lo, stop)
  {
    CountExact(m.areas, lo, stop);
    CutKeeps(m.areas, lo, stop);
  }

  ghost predicate AllInOrder(m: Space, ops: seq<Op>)
    decreases ops
  {
    InOrder(m) && (ops == [] || AllInOrder(Step(m, ops[0]), ops[1..]))
  }

  ghost predicate Unbroken(m: Space, ops: seq<Op>)
    decreases ops
  {
    ops == [] || (!Breaks(m, ops[0]) && Unbroken(Step(m, ops[0]), ops[1..]))
  }

  ghost function Run(m: Space, ops: seq<Op>): Space
    decreases ops
  {
    if ops == [] then m else Run(Step(m, ops[0]), ops[1..])
  }

  /** The page map a client has in mind: a map request takes effect if none of its pages is taken, an
      unmap request on the pages up to the point it gets to. */
  type PageMap = int -> Backing

  ghost predicate Taken(f: PageMap, v: Area) {
    exists page :: Covers(v, page) && f(page).Backed?
  }

  ghost function MapStep(m: Space, f: PageMap, op: Op): PageMap {
    match op
    case DoMap(v) => if Taken(f, v) then f else (page => if Covers(v, page) then PageOf(v, page) else f(page))
    case DoUnmap(lo, hi, first, second) =>
      if m.Dangling? || Starved(m.areas, lo, first) then f
      else
        var stop := Reached(m.areas, lo, hi, second);
        (page => if InRange(page, lo, stop) then Unmapped else f(page))
  }

  ghost function MapRun(m: Space, f: PageMap, ops: seq<Op>): PageMap
    decreases ops
  {
    if ops == [] then f else MapRun(Step(m, ops[0]), MapStep(m, f, ops[0]), ops[1..])
  }

  /** The list stands for the page map. */
  ghost predicate StandsFor(m: Space, f: PageMap) {
    m.Space? && forall page :: Lookup(m.areas, page) == f(page)
  }

  /** An area overlaps the list exactly when one of its pages is taken. */
  lemma OverlapIsTaken(s: Areas, v: Area, f: PageMap)
    requires Sorted(s) && Aligned(v) && forall page :: Lookup(s, page) == f(page)
    ensures Overlaps(s, v) <==> Taken(f, v)
  {
    if Overlaps(s, v) {
      var i :| 0 <= i < |s| && s[i].start < v.end && v.start < s[i].end;
      var page := (if s[i].start > v.start then s[i].start else v.start) / PAGE;
      assert Covers(v, page) && Covers(s[i], page);
      LookupMapped(s, page);
      assert f(page).Backed?;
    }
    if Taken(f, v) {
      var page :| Covers(v, page) && f(page).Backed?;
      LookupMapped(s, page);
      var i :| 0 <= i < |s| && Covers(s[i], page);
    }
  }

  lemma StepStandsFor(m: Space, f: PageMap, op: Op)
    requires InOrder(m) && Proper(op) && !Breaks(m, op) && StandsFor(m, f)
    ensures StandsFor(Step(m, op), MapStep(m, f, op))
  {
    var m', f' := Step(m, op), MapStep(m, f, op);
    match op
    case DoMap(v) =>
      OverlapIsTaken(m.areas, v, f);
      if !Overlaps(m.areas, v) {
        NeighboursSuffice(m.areas, v);
        forall page ensures Lookup(m'.areas, page) == f'(page) {
          InsertPages(m.areas, v, page);
        }
      }
    case DoUnmap(lo, hi, first, second) =>
      var stop := Reached(m.areas, lo, hi, second);
      ReachedIn(m.areas, lo, hi, second);
      CountExact(m.areas, lo, stop);
      forall page ensures Lookup(m'.areas, page) == f'(page) {
        CutPages(m.areas, lo, stop, page);
      }
  }

  /** In every run the list is in order at every point if and only if neither of the two calls occurs;
      and then it stands for the page map the client has in mind. */
  lemma {:induction false} EveryRun(m: Space, f: PageMap, ops: seq<Op>)
    requires InOrder(m) && StandsFor(m, f) && forall k :: 0 <= k < |ops| ==> Proper(ops[k])
    ensures AllInOrder(m, ops) <==> Unbroken(m, ops)
    ensures Unbroken(m, ops) ==> StandsFor(Run(m, ops), MapRun(m, f, ops))
    decreases ops
  {
    if ops != [] {
      assert Proper(ops[0]);
      StepInOrder(m, ops[0]);
      if !Breaks(m, ops[0]) {
        StepStandsFor(m, f, ops[0]);
        EveryRun(Step(m, ops[0]), MapStep(m, f, ops[0]), ops[1..]);
      } else {
        NotInOrder(Step(m, ops[0]), ops[1..]);
      }
    }
  }

  lemma NotInOrder(m: Space, ops: seq<Op>)
    requires !InOrder(m)
    ensures !AllInOrder(m, ops)
  {}
}
