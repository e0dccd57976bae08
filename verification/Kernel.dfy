/** Names shared by every layer: status codes, the page size and the alignment macros.
    Addresses are unbounded integers here; a layer that can wrap at 32 bits says so itself. */
module Kernel {

  datatype Status = Ok | Error | InvalidParam | OutOfMemory | NotImplemented | AlreadyMapped

  datatype Option<+T> = None | Some(value: T)

  const PAGE := 4096
  const TWO32 := 0x1_0000_0000

  /** ALIGN_DOWN for a power of two: masking the low bits drops the remainder. */
  function AlignDown(x: int, align: int): int
    requires 0 < align
  {
    x - x % align
  }

  /** ALIGN_UP, without the 32-bit wrap. */
  function AlignUp(x: int, align: int): int
    requires 0 < align
  {
    AlignDown(x + align - 1, align)
  }

  lemma DownAligned(x: int)
    ensures AlignDown(x, PAGE) % PAGE == 0 && AlignDown(x, PAGE) <= x < AlignDown(x, PAGE) + PAGE
  {
    var q, r := x / PAGE, x % PAGE;
    assert x == PAGE * q + r && x - r == PAGE * q;
  }

  lemma UpAligned(x: int)
    ensures AlignUp(x, PAGE) % PAGE == 0 && x <= AlignUp(x, PAGE) < x + PAGE
  {
    DownAligned(x + PAGE - 1);
  }

  lemma PageAligned(x: int)
    ensures AlignDown(x, PAGE) % PAGE == 0 && AlignDown(x, PAGE) <= x < AlignDown(x, PAGE) + PAGE
    ensures AlignUp(x, PAGE) % PAGE == 0 && x <= AlignUp(x, PAGE) < x + PAGE
  {
    DownAligned(x);
    UpAligned(x);
  }

  /** The value a 32-bit unsigned register keeps. */
  function Wrap32(x: int): int {
    x % TWO32
  }

  /** The integers of [lo, hi): the finite sets the counting arguments run on. */
  ghost function Range(lo: int, hi: int): (r: set<int>)
    ensures forall i :: i in r <==> lo <= i < hi
  {
    set i | lo <= i < hi && Index(i)
  }

  /** Always true; it names the bound variable of Range so that the verifier can find it. */
  ghost predicate Index(i: int) {
    true
  }

  /** The invariants that long proofs carry closed. */
  datatype Part =
    | TheBits | TheFrames | TheTables | TheStep | TheCount | TheRange | TheFailure | TheBlocks | TheBacking | TheList
    | TheWiping | TheOwners | TheGrowth | TheOrder

  datatype Seal = Intact | Broken

  /** Always true. A sealed fact has the form `if forall k :: Open(p, k) ==> P then Intact else Broken`:
      it stays closed until a proof says Open(p, 0), so that other proofs carry it without looking inside. */
  ghost predicate Open(p: Part, k: int) {
    true
  }

  lemma {:induction false} RangeSize(lo: int, hi: int)
    requires lo <= hi
    ensures |Range(lo, hi)| == hi - lo
    decreases hi - lo
  {
    if lo < hi {
      RangeSize(lo, hi - 1);
      assert Range(lo, hi) == Range(lo, hi - 1) + {hi - 1};
    } else {
      assert Range(lo, hi) == {};
    }
  }
}
