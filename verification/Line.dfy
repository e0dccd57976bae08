/** The line rasteriser vbe_draw_line of src/drivers/vbe.c. */
module Line {
  import opened Kernel

  type Point = (int, int)

  // ---------------------------------------------------------------- the ideal line, in one octant

  /** The error term of step k with j steps on the minor axis; `major` and `minor` are the extents. */
  function ErrorTerm(major: int, minor: int, k: int, j: int): int {
    major / 2 - minor * k + major * j
  }

  /** x / d by repeated subtraction, which the verifier unfolds only where a proof asks for it. */
  function Quotient(x: nat, d: nat): nat
    requires 0 < d
  {
    if x < d then 0 else 1 + Quotient(x - d, d)
  }

  lemma {:induction false} QuotientBounds(x: nat, d: nat)
    requires 0 < d
    ensures d * Quotient(x, d) <= x < d * Quotient(x, d) + d
  {
    if x >= d {
      QuotientBounds(x - d, d);
      var q := Quotient(x - d, d);
      assert d * (1 + q) == d + d * q;
    }
  }

  lemma QuotientIs(x: nat, d: nat, q: int)
    requires 0 < d && d * q <= x < d * q + d
    ensures Quotient(x, d) == q == x / d
  {
    var q' := Quotient(x, d);
    QuotientBounds(x, d);
    if q' < q {
      MulLess(d, q' + 1, q);
    } else if q < q' {
      MulLess(d, q + 1, q');
    }
    DivIs(x, d, q);
  }

  lemma DivIs(x: nat, d: nat, q: int)
    requires 0 < d && d * q <= x < d * q + d
    ensures x / d == q
  {
    var q' := x / d;
    assert d * q' <= x < d * q' + d;
    if q' < q {
      MulLess(d, q' + 1, q);
    } else if q < q' {
      MulLess(d, q + 1, q');
    }
  }

  lemma MulLess(d: int, a: int, b: int)
    requires 0 <= d && a <= b
    ensures d * a <= d * b
  {}

  /** The number of minor steps after k major ones: minor * k / major, rounded to nearest. */
  function MinorSteps(major: nat, minor: nat, k: nat): nat {
    if major == 0 then 0 else Quotient(minor * k + (major - 1 - major / 2), major)
  }

  /** The closed form: keeping the error term in [0, major) picks exactly the rounded position. */
  lemma ClosedForm(major: nat, minor: nat, k: nat, j: int)
    requires 0 < major
    ensures 0 <= ErrorTerm(major, minor, k, j) < major <==> j == MinorSteps(major, minor, k)
    ensures MinorSteps(major, minor, k) == (minor * k + major - 1 - major / 2) / major
  {
    var x := minor * k + (major - 1 - major / 2);
    if 0 <= ErrorTerm(major, minor, k, j) < major {
      QuotientIs(x, major, j);
    }
    QuotientBounds(x, major);
    QuotientIs(x, major, Quotient(x, major));
  }

  /** Every pixel lies within half a unit of the ideal line on the minor axis. */
  lemma WithinHalf(major: nat, minor: nat, k: nat)
    requires 0 < major
    ensures var d := major * MinorSteps(major, minor, k) - minor * k; 0 <= 2 * d + major <= 2 * major
  {
    ClosedForm(major, minor, k, MinorSteps(major, minor, k));
  }

  lemma LastStep(major: nat, minor: nat)
    requires 0 <= minor <= major
    ensures MinorSteps(major, minor, major) == minor && MinorSteps(major, minor, 0) == 0
  {
    if 0 < major {
      assert minor * major == major * minor;
      ClosedForm(major, minor, major, minor);
      ClosedForm(major, minor, 0, 0);
    }
  }

  lemma NextError(major: nat, minor: nat, k: nat, j: int)
    ensures ErrorTerm(major, minor, k + 1, j) == ErrorTerm(major, minor, k, j) - minor
    ensures ErrorTerm(major, minor, k + 1, j + 1) == ErrorTerm(major, minor, k, j) - minor + major
  {
    assert minor * (k + 1) == minor * k + minor && major * (j + 1) == major * j + major;
  }

  /** One major step moves the minor axis by one exactly when the error term is below `minor`. */
  lemma StepForm(major: nat, minor: nat, k: nat)
    requires 0 <= minor <= major && 0 < major
    ensures var j := MinorSteps(major, minor, k);
            var e := ErrorTerm(major, minor, k, j);
            && 0 <= e < major
            && MinorSteps(major, minor, k + 1) == (if e < minor then j + 1 else j)
            && ErrorTerm(major, minor, k + 1, MinorSteps(major, minor, k + 1))
               == e - minor + (if e < minor then major else 0)
  {
    var j := MinorSteps(major, minor, k);
    ClosedForm(major, minor, k, j);
    var e := ErrorTerm(major, minor, k, j);
    var j' := if e < minor then j + 1 else j;
    NextError(major, minor, k, j);
    ClosedForm(major, minor, k + 1, j');
  }

  lemma {:induction false} InExtent(major: nat, minor: nat, k: nat)
    requires 0 <= minor <= major && k <= major
    ensures 0 <= MinorSteps(major, minor, k) <= minor
  {
    LastStep(major, minor);
    if 0 < major {
      UpTo(major, minor, 0, k);
      UpTo(major, minor, k, major);
    }
  }

  lemma {:induction false} UpTo(major: nat, minor: nat, k: nat, m: nat)
    requires 0 <= minor <= major && 0 < major && k <= m
    ensures MinorSteps(major, minor, k) <= MinorSteps(major, minor, m)
    decreases m - k
  {
    if k < m {
      StepForm(major, minor, k);
      UpTo(major, minor, k + 1, m);
    }
  }

  // ---------------------------------------------------------------- the line between two points

  function Abs(x: int): nat {
    if x >= 0 then x else -x
  }

  /** n steps of sx (or sy) from a: upwards when a < b, downwards otherwise. */
  function Toward(a: int, b: int, n: int): int {
    if a < b then a + n else a - n
  }

  /** The longer extent: the number of steps. */
  function Steps(p: Point, q: Point): nat {
    var a, b := Abs(q.0 - p.0), Abs(q.1 - p.1);
    if a > b then a else b
  }

  /** How far pixel k has moved along x and y. */
  function Moved(p: Point, q: Point, k: nat): Point {
    var a, b := Abs(q.0 - p.0), Abs(q.1 - p.1);
    if a > b then (k, MinorSteps(a, b, k)) else (MinorSteps(b, a, k), k)
  }

  /** Pixel k of the line from p to q. */
  function Pixel(p: Point, q: Point, k: nat): Point {
    var m := Moved(p, q, k);
    (Toward(p.0, q.0, m.0), Toward(p.1, q.1, m.1))
  }

  predicate Between(x: int, a: int, b: int) {
    a <= x <= b || b <= x <= a
  }

  /** The line starts at p, ends at q, and stays in their bounding box. */
  lemma PixelInBox(p: Point, q: Point, k: nat)
    requires k <= Steps(p, q)
    ensures Between(Pixel(p, q, k).0, p.0, q.0) && Between(Pixel(p, q, k).1, p.1, q.1)
    ensures Pixel(p, q, 0) == p && Pixel(p, q, Steps(p, q)) == q
  {
    MovedInExtent(p, q, k);
  }

  lemma MovedInExtent(p: Point, q: Point, k: nat)
    requires k <= Steps(p, q)
    ensures var a, b := Abs(q.0 - p.0), Abs(q.1 - p.1);
            && 0 <= Moved(p, q, k).0 <= a && 0 <= Moved(p, q, k).1 <= b
            && Moved(p, q, 0) == (0, 0) && Moved(p, q, Steps(p, q)) == (a, b)
  {
    var a, b := Abs(q.0 - p.0), Abs(q.1 - p.1);
    if a > b {
      InExtent(a, b, k);
      LastStep(a, b);
    } else {
      InExtent(b, a, k);
      LastStep(b, a);
    }
  }

  /** Before the last step the pixel is not the end point. */
  lemma NotYet(p: Point, q: Point, k: nat)
    requires k < Steps(p, q)
    ensures Pixel(p, q, k) != q
  {}

  /** Pixel k is within half a unit of the ideal line, measured on the shorter axis. */
  lemma NearLine(p: Point, q: Point, k: nat)
    requires k <= Steps(p, q)
    ensures var a, b, m := Abs(q.0 - p.0), Abs(q.1 - p.1), Moved(p, q, k);
            2 * Abs(a * m.1 - b * m.0) <= (if a > b then a else b)
  {
    var a, b := Abs(q.0 - p.0), Abs(q.1 - p.1);
    if a > b {
      WithinHalf(a, b, k);
    } else if 0 < b {
      WithinHalf(b, a, k);
    }
  }

  /** How far x lies from a, counted towards b. */
  function Offset(a: int, b: int, x: int): int {
    if a < b then x - a else a - x
  }

  /** j minor steps are right after k major ones: the point is nearest to the ideal line on that axis, and of
      two equally near ones it is the one closer to the start. */
  predicate Nearest(major: nat, minor: nat, k: int, j: int) {
    if major == 0 then j == 0 else 0 - major <= 2 * (major * j - minor * k) < major
  }

  /** What vbe_draw_line is to paint in n steps: one point for each step along the longer axis. */
  predicate OnLine(p: Point, q: Point, n: nat, at: Point) {
    var a, b := Abs(q.0 - p.0), Abs(q.1 - p.1);
    var i, j := Offset(p.0, q.0, at.0), Offset(p.1, q.1, at.1);
    if a > b then 0 <= i < n && Nearest(a, b, i, j) else 0 <= j < n && Nearest(b, a, j, i)
  }

  /** The closed form picks the nearest point. */
  lemma NearestIs(major: nat, minor: nat, k: nat, j: int)
    ensures Nearest(major, minor, k, j) <==> j == MinorSteps(major, minor, k)
  {
    if 0 < major {
      ClosedForm(major, minor, k, j);
      HalfRange(major, major * j - minor * k);
    }
  }

  lemma HalfRange(major: nat, d: int)
    ensures 0 <= major / 2 + d < major <==> 0 - major <= 2 * d < major
  {}

  /** The pixels are exactly the points on the line, in order along the longer axis. */
  lemma PixelExact(p: Point, q: Point, k: nat, at: Point)
    ensures at == Pixel(p, q, k) <==>
              var a, b := Abs(q.0 - p.0), Abs(q.1 - p.1);
              var i, j := Offset(p.0, q.0, at.0), Offset(p.1, q.1, at.1);
              if a > b then i == k && Nearest(a, b, k, j) else j == k && Nearest(b, a, k, i)
  {
    var a, b := Abs(q.0 - p.0), Abs(q.1 - p.1);
    var i, j := Offset(p.0, q.0, at.0), Offset(p.1, q.1, at.1);
    if a > b {
      NearestIs(a, b, k, j);
    } else {
      NearestIs(b, a, k, i);
    }
  }

  lemma OnLineIs(p: Point, q: Point, n: nat, at: Point)
    ensures OnLine(p, q, n, at) <==> exists k :: 0 <= k < n && Pixel(p, q, k) == at
  {
    var a, b := Abs(q.0 - p.0), Abs(q.1 - p.1);
    var k := if a > b then Offset(p.0, q.0, at.0) else Offset(p.1, q.1, at.1);
    if OnLine(p, q, n, at) {
      PixelExact(p, q, k, at);
    }
    if m: nat :| m < n && Pixel(p, q, m) == at {
      PixelExact(p, q, m, at);
    }
  }

  /** Every pixel is within half a unit of the line through p and q, measured on the shorter axis. */
  lemma PixelNear(p: Point, q: Point, k: nat)
    requires k <= Steps(p, q)
    ensures 2 * Abs((q.0 - p.0) * (Pixel(p, q, k).1 - p.1) - (q.1 - p.1) * (Pixel(p, q, k).0 - p.0)) <= Steps(p, q)
  {
    var a, b, m := Abs(q.0 - p.0), Abs(q.1 - p.1), Moved(p, q, k);
    NearLine(p, q, k);
    MovedInExtent(p, q, k);
    SameProduct(q.0 - p.0, q.1 - p.1, m.0, m.1);
  }

  /** The signs of the two axes cancel. */
  lemma SameProduct(dx: int, dy: int, i: int, j: int)
    ensures var x, y := if 0 < dx then i else -i, if 0 < dy then j else -j;
            Abs(dx * y - dy * x) == Abs(Abs(dx) * j - Abs(dy) * i)
  {
    var x, y := if 0 < dx then i else -i, if 0 < dy then j else -j;
    Signed(dx, dy, j);
    Signed(dy, dx, i);
    assert dx * y == if (0 < dx) == (0 < dy) then Abs(dx) * j else -(Abs(dx) * j);
    assert dy * x == if (0 < dx) == (0 < dy) then Abs(dy) * i else -(Abs(dy) * i);
  }

  lemma Signed(d: int, e: int, j: int)
    ensures d * (if 0 < e then j else -j) == if (0 < d) == (0 < e) then Abs(d) * j else -(Abs(d) * j)
  {
    if d <= 0 {
      assert d == 0 - Abs(d);
      assert d * j == -(Abs(d) * j) && d * -j == Abs(d) * j;
    } else {
      assert d * -j == -(d * j);
    }
  }

  /** Each pixel is a neighbour of the one before it, one step closer on the longer axis. */
  lemma Neighbours(p: Point, q: Point, k: nat)
    requires k < Steps(p, q)
    ensures var a, b, r, r' := Abs(q.0 - p.0), Abs(q.1 - p.1), Pixel(p, q, k), Pixel(p, q, k + 1);
            && Abs(r'.0 - r.0) <= 1 && Abs(r'.1 - r.1) <= 1
            && (if a > b then r'.0 == Toward(r.0, q.0, 1) else r'.1 == Toward(r.1, q.1, 1))
  {
    NextPixel(p, q, k);
  }

  /** The error variable of vbe_draw_line at pixel k. */
  function Err(p: Point, q: Point, k: nat): int {
    var a, b, m := Abs(q.0 - p.0), Abs(q.1 - p.1), Moved(p, q, k);
    (if a > b then a / 2 else -(b / 2)) - b * m.0 + a * m.1
  }

  /** What the two tests of the loop do: one pixel is followed by the next. */
  lemma NextPixel(p: Point, q: Point, k: nat)
    requires k < Steps(p, q)
    ensures var a, b, e, m := Abs(q.0 - p.0), Abs(q.1 - p.1), Err(p, q, k), Moved(p, q, k);
            && Moved(p, q, k + 1) == (if e + a > 0 then m.0 + 1 else m.0, if e < b then m.1 + 1 else m.1)
            && Err(p, q, k + 1) == e - (if e + a > 0 then b else 0) + (if e < b then a else 0)
  {
    var a, b := Abs(q.0 - p.0), Abs(q.1 - p.1);
    if a > b {
      StepForm(a, b, k);
      ErrIsTerm(p, q, k);
      ErrIsTerm(p, q, k + 1);
    } else {
      StepForm(b, a, k);
      ErrIsTerm(p, q, k);
      ErrIsTerm(p, q, k + 1);
    }
  }

  /** The error variable is the error term of the octant, up to its sign. */
  lemma ErrIsTerm(p: Point, q: Point, k: nat)
    ensures var a, b := Abs(q.0 - p.0), Abs(q.1 - p.1);
            Err(p, q, k) ==
            if a > b then ErrorTerm(a, b, k, MinorSteps(a, b, k)) else -ErrorTerm(b, a, k, MinorSteps(b, a, k))
  {}

  // ---------------------------------------------------------------- the code

  /** The framebuffer after the first n pixels of the line, painted in order. */
  function Paint(fb: map<Point, int>, p: Point, q: Point, n: nat, color: int): map<Point, int> {
    if n == 0 then fb else Paint(fb, p, q, n - 1, color)[Pixel(p, q, n - 1) := color]
  }

  /** Exactly the pixels of the line change. */
  lemma {:induction false} PaintsTheLine(fb: map<Point, int>, p: Point, q: Point, n: nat, color: int, at: Point)
    ensures var now := Paint(fb, p, q, n, color);
            if exists k :: 0 <= k < n && Pixel(p, q, k) == at then at in now && now[at] == color
            else (at in now <==> at in fb) && (at in fb ==> now[at] == fb[at])
  {
    if n > 0 {
      PaintsTheLine(fb, p, q, n - 1, color, at);
      if k :| 0 <= k < n && Pixel(p, q, k) == at && k < n - 1 {
      } else {
        assert Pixel(p, q, n - 1) == at ==> 0 <= n - 1 < n;
      }
    }
  }

  predicate SameAt(fb: map<Point, int>, fb': map<Point, int>, at: Point) {
    (at in fb' <==> at in fb) && (at in fb ==> fb'[at] == fb[at])
  }

  /** The same, told from the end points alone. */
  lemma PaintedLine(fb: map<Point, int>, p: Point, q: Point, n: nat, color: int)
    ensures var now := Paint(fb, p, q, n, color);
            forall at: Point {:trigger OnLine(p, q, n, at)} ::
              if OnLine(p, q, n, at) then at in now && now[at] == color else SameAt(fb, now, at)
  {
    forall at: Point {:trigger OnLine(p, q, n, at)}
      ensures var now := Paint(fb, p, q, n, color);
              if OnLine(p, q, n, at) then at in now && now[at] == color else SameAt(fb, now, at)
    {
      OnLineIs(p, q, n, at);
      PaintsTheLine(fb, p, q, n, color, at);
    }
  }

  class Screen {
    var initialized: bool
    var width: int
    var height: int
    var bpp: int
    var fb: map<Point, int>

    /** The pixel depths vbe_put_pixel knows. */
    predicate Supported()
      reads this
    {
      bpp == 8 || bpp == 15 || bpp == 16 || bpp == 24 || bpp == 32
    }

    /** vbe_put_pixel accepts the pixel. */
    predicate Accepts(p: Point)
      reads this
    {
      initialized && p.0 < width && p.1 < height && Supported()
    }

    /** vbe_put_pixel, with coordinates that are never negative. */
    method PutPixel(x: nat, y: nat, color: int) returns (st: Status)
      modifies this`fb
      ensures st == if !initialized || x >= width || y >= height then InvalidParam
                    else if !Supported() then NotImplemented else Ok
      ensures fb == if st == Ok then old(fb)[(x, y) := color] else old(fb)
    {
      if !initialized || x >= width || y >= height {
        return InvalidParam;
      }
      if !(bpp == 8 || bpp == 15 || bpp == 16 || bpp == 24 || bpp == 32) {
        return NotImplemented;
      }
      fb := fb[(x, y) := color];
      st := Ok;
    }

    /** vbe_draw_line: paints the pixels of the line in order, up to the first one that is refused. */
    method DrawLine(p: Point, q: Point, color: int) returns (st: Status, ghost n: nat)
      requires 0 <= p.0 < 0x1_0000 && 0 <= p.1 < 0x1_0000 && 0 <= q.0 < 0x1_0000 && 0 <= q.1 < 0x1_0000
      modifies this`fb
      ensures st == Ok || st == Error
      ensures fb == Paint(old(fb), p, q, n, color)
      ensures st == Ok ==> n == Steps(p, q) + 1
      ensures st == Error ==> n <= Steps(p, q) && !Accepts(Pixel(p, q, n))
      ensures st == Ok <==> Accepts(p) && Accepts(q)
      ensures forall at: Point {:trigger OnLine(p, q, n, at)} ::
                if OnLine(p, q, n, at) then at in fb && fb[at] == color else SameAt(old(fb), fb, at)
    {
      var absDx, absDy, sx, sy, err := Begin(p, q, fb, color);
      var at := p;
      n := 0;
      ghost var last := Steps(p, q);
      while true
        invariant n <= last && LineSeal(p, q, n, at, err, old(fb), fb, color).Intact?
        invariant n > 0 ==> Accepts(p)
        decreases last - n
      {
        InBox(p, q, n, at, err, old(fb), fb, color);
        assert Accepts(p) && Accepts(q) ==> Accepts(at);
        ghost var next := n + 1;
        ghost var before := fb;
        var put := PutPixel(at.0, at.1, color);
        if put != Ok {
          PaintedLine(old(fb), p, q, n, color);
          return Error, n;
        }
        if at.0 == q.0 && at.1 == q.1 {
          assert at == q && Accepts(q) && Accepts(p);
          PaintedLine(old(fb), p, q, next, color);
          return Ok, next;
        }
        at, err := Step(p, q, n, next, at, err, absDx, absDy, sx, sy, old(fb), before, color);
        n := next;
      }
    }
  }

  /** C division by two: toward zero. */
  function Half(x: int): int {
    if x >= 0 then x / 2 else -(-x / 2)
  }

  /** The loop variables of vbe_draw_line at pixel k, with the k pixels before it painted. */
  ghost function LineSeal(p: Point, q: Point, k: nat, at: Point, err: int, fb: map<Point, int>, fb': map<Point, int>,
                          color: int): Seal {
    if forall i {:trigger Open(TheRange, i)} :: Open(TheRange, i) ==>
      at == Pixel(p, q, k) && err == Err(p, q, k) && fb' == Paint(fb, p, q, k, color)
    then Intact else Broken
  }

  /** The local variables before the loop. */
  method Begin(p: Point, q: Point, ghost fb: map<Point, int>, ghost color: int)
      returns (absDx: nat, absDy: nat, sx: int, sy: int, err: int)
    ensures absDx == Abs(q.0 - p.0) && absDy == Abs(q.1 - p.1)
    ensures sx == (if p.0 < q.0 then 1 else -1) && sy == (if p.1 < q.1 then 1 else -1)
    ensures LineSeal(p, q, 0, p, err, fb, fb, color).Intact?
  {
    var dx, dy := q.0 - p.0, q.1 - p.1;
    absDx, absDy := if dx >= 0 then dx else -dx, if dy >= 0 then dy else -dy;
    sx, sy := if p.0 < q.0 then 1 else -1, if p.1 < q.1 then 1 else -1;
    err := Half(if absDx > absDy then absDx else 0 - absDy);
    StartErr(p, q);
    PixelInBox(p, q, 0);
  }

  /** What the loop knows about the pixel it is at. */
  lemma InBox(p: Point, q: Point, k: nat, at: Point, err: int, fb: map<Point, int>, fb': map<Point, int>, color: int)
    requires k <= Steps(p, q) && LineSeal(p, q, k, at, err, fb, fb', color).Intact?
    ensures at == Pixel(p, q, k) && Between(at.0, p.0, q.0) && Between(at.1, p.1, q.1)
    ensures (k == 0 ==> at == p) && (at == q <==> k == Steps(p, q))
    ensures fb' == Paint(fb, p, q, k, color) && fb'[at := color] == Paint(fb, p, q, k + 1, color)
  {
    assert Open(TheRange, 0);
    PixelInBox(p, q, k);
    if at == q {
      AtEnd(p, q, k);
    }
  }

  /** The two tests at the end of the loop body. */
  method Step(p: Point, q: Point, ghost k: nat, ghost k': nat, at: Point, err: int, absDx: nat, absDy: nat, sx: int,
              sy: int, ghost fb: map<Point, int>, ghost fb': map<Point, int>, ghost color: int)
      returns (next: Point, err': int)
    requires k < k' == k + 1 <= Steps(p, q) && LineSeal(p, q, k, at, err, fb, fb', color).Intact?
    requires absDx == Abs(q.0 - p.0) && absDy == Abs(q.1 - p.1)
    requires sx == (if p.0 < q.0 then 1 else -1) && sy == (if p.1 < q.1 then 1 else -1)
    ensures LineSeal(p, q, k', next, err', fb, fb'[at := color], color).Intact?
  {
    assert Open(TheRange, 0);
    NextPixel(p, q, k);
    var x, y := at.0, at.1;
    err' := err;
    if err > 0 - absDx {
      err' := err' - absDy;
      x := x + sx;
    }
    if err < absDy {
      err' := err' + absDx;
      y := y + sy;
    }
    next := (x, y);
  }

  lemma StartErr(p: Point, q: Point)
    ensures var a, b := Abs(q.0 - p.0), Abs(q.1 - p.1);
            Err(p, q, 0) == if a > b then a / 2 else -(b / 2)
  {
    var a, b := Abs(q.0 - p.0), Abs(q.1 - p.1);
    if a > b {
      LastStep(a, b);
    } else {
      LastStep(b, a);
    }
  }

  lemma AtEnd(p: Point, q: Point, k: nat)
    requires k <= Steps(p, q) && Pixel(p, q, k) == q
    ensures k == Steps(p, q)
  {
    if k < Steps(p, q) {
      NotYet(p, q, k);
    }
  }
}
