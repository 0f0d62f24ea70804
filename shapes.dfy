/** The point sequences of the outline and fill primitives that work on
    integers only: rectangle outlines and triangle outlines made of lines,
    the clipped scan of PIF_imageFillRect, the disk scan of
    PIF_imageFillCircle, and the vertex sort that starts
    PIF_imageFillTriangle. */
module Shapes {
  import opened Bytes
  import opened Grid
  import opened Lines

  /** PIF_Rect: a corner and a size. */
  datatype Rect = Rect(x: int, y: int, w: int, h: int)

  /** The rectangle the outline and fill primitives use when given none. */
  function WholeImage(w: int, h: int): Rect
  {
    Rect(0, 0, w, h)
  }

  // ---------------------------------------------------------------------
  // Outlines

  /** A line from (x1, y1) to (x2, y2). */
  datatype Segment = Segment(x1: int, y1: int, x2: int, y2: int)

  function SegmentPoints(s: Segment, n: int): seq<Point>
  {
    LinePoints(s.x1, s.y1, s.x2, s.y2, n)
  }

  /** PIF_imageDrawRect's four lines: top, left, right and bottom, each
      starting at a different corner so that no corner is drawn twice. */
  function RectSides(r: Rect): seq<Segment>
  {
    [Segment(r.x, r.y, r.x + r.w - 1, r.y), Segment(r.x, r.y + r.h, r.x, r.y + 1),
     Segment(r.x + r.w, r.y, r.x + r.w, r.y + r.h - 1), Segment(r.x + r.w, r.y + r.h, r.x + 1, r.y + r.h)]
  }

  /** The points of the four lines, drawn one after the other. */
  function RectOutline(r: Rect, n: int): seq<Point>
  {
    var s := RectSides(r);
    SegmentPoints(s[0], n) + SegmentPoints(s[1], n) + SegmentPoints(s[2], n) + SegmentPoints(s[3], n)
  }

  /** PIF_imageDrawTriangle's three lines. */
  function TriangleOutline(x1: int, y1: int, x2: int, y2: int, x3: int, y3: int, n: int): seq<Point>
  {
    LinePoints(x1, y1, x2, y2, n) + LinePoints(x2, y2, x3, y3, n) + LinePoints(x3, y3, x1, y1, n)
  }

  /** k cells of row y from x0 rightwards, and of column x from y0 downwards. */
  function RowSeg(x0: int, k: nat, y: int): seq<Point>
  {
    seq(k, i => Point(x0 + i, y))
  }

  function ColSeg(x: int, y0: int, k: nat): seq<Point>
  {
    seq(k, i => Point(x, y0 + i))
  }

  lemma RowSegMembers(x0: int, k: nat, y: int, p: Point)
    ensures p in RowSeg(x0, k, y) <==> p.y == y && x0 <= p.x < x0 + k
  {
    if p.y == y && x0 <= p.x < x0 + k {
      assert RowSeg(x0, k, y)[p.x - x0] == p;
    }
  }

  lemma ColSegMembers(x: int, y0: int, k: nat, p: Point)
    ensures p in ColSeg(x, y0, k) <==> p.x == x && y0 <= p.y < y0 + k
  {
    if p.x == x && y0 <= p.y < y0 + k {
      assert ColSeg(x, y0, k)[p.y - y0] == p;
    }
  }

  lemma RowSegNoRepeats(x0: int, k: nat, y: int)
    ensures NoRepeats(RowSeg(x0, k, y))
  {
  }

  lemma ColSegNoRepeats(x: int, y0: int, k: nat)
    ensures NoRepeats(ColSeg(x, y0, k))
  {
  }

  /** A solid horizontal segment visits the row cells between its ends. */
  lemma RowSolid(s: Segment)
    requires s.y1 == s.y2
    ensures SegmentPoints(s, 0) == RowSeg(Min(s.x1, s.x2), Abs(s.x2 - s.x1) + 1, s.y1)
  {
    HorizontalTrace(s.x1, s.x2, s.y1);
    DashedSolid(LineTrace(s.x1, s.y1, s.x2, s.y2), 0);
  }

  /** A solid vertical segment visits the column cells between its ends. */
  lemma ColSolid(s: Segment)
    requires s.x1 == s.x2
    ensures SegmentPoints(s, 0) == ColSeg(s.x1, Min(s.y1, s.y2), Abs(s.y2 - s.y1) + 1)
  {
    if s.y1 == s.y2 {
      HorizontalTrace(s.x1, s.x2, s.y1);
    } else {
      VerticalTrace(s.x1, s.y1, s.y2);
    }
    DashedSolid(LineTrace(s.x1, s.y1, s.x2, s.y2), 0);
  }

  /** The sides of a solid outline of a rectangle with w, h >= 1. */
  lemma TopSide(r: Rect)
    requires r.w >= 1
    ensures SegmentPoints(RectSides(r)[0], 0) == RowSeg(r.x, r.w, r.y)
  {
    var s := RectSides(r)[0];
    RowSolid(s);
    assert Min(s.x1, s.x2) == r.x && Abs(s.x2 - s.x1) + 1 == r.w;
  }

  lemma LeftSide(r: Rect)
    requires r.h >= 1
    ensures SegmentPoints(RectSides(r)[1], 0) == ColSeg(r.x, r.y + 1, r.h)
  {
    var s := RectSides(r)[1];
    ColSolid(s);
    assert Min(s.y1, s.y2) == r.y + 1 && Abs(s.y2 - s.y1) + 1 == r.h;
  }

  lemma RightSide(r: Rect)
    requires r.h >= 1
    ensures SegmentPoints(RectSides(r)[2], 0) == ColSeg(r.x + r.w, r.y, r.h)
  {
    var s := RectSides(r)[2];
    ColSolid(s);
    assert Min(s.y1, s.y2) == r.y && Abs(s.y2 - s.y1) + 1 == r.h;
  }

  lemma BottomSide(r: Rect)
    requires r.w >= 1
    ensures SegmentPoints(RectSides(r)[3], 0) == RowSeg(r.x + 1, r.w, r.y + r.h)
  {
    var s := RectSides(r)[3];
    RowSolid(s);
    assert Min(s.x1, s.x2) == r.x + 1 && Abs(s.x2 - s.x1) + 1 == r.w;
  }

  /** The cells of the four sides of a solid outline, as row and column
      segments. */
  function SolidOutline(r: Rect): seq<Point>
    requires r.w >= 1 && r.h >= 1
  {
    RowSeg(r.x, r.w, r.y) + ColSeg(r.x, r.y + 1, r.h) + ColSeg(r.x + r.w, r.y, r.h) + RowSeg(r.x + 1, r.w, r.y + r.h)
  }

  /** A solid outline draws exactly those segments. */
  lemma SolidSides(r: Rect)
    requires r.w >= 1 && r.h >= 1
    ensures RectOutline(r, 0) == SolidOutline(r)
  {
    TopSide(r);
    LeftSide(r);
    RightSide(r);
    BottomSide(r);
  }

  /** The border of [x, x+w] × [y, y+h]: the cells of the solid outline. */
  ghost predicate OnBorder(r: Rect, p: Point)
  {
    r.x <= p.x <= r.x + r.w && r.y <= p.y <= r.y + r.h &&
    (p.x == r.x || p.x == r.x + r.w || p.y == r.y || p.y == r.y + r.h)
  }

  /** A solid outline with w, h >= 1 covers exactly the border of
      [x, x+w] × [y, y+h]. */
  lemma RectOutlineIsBorder(r: Rect, p: Point)
    requires r.w >= 1 && r.h >= 1
    ensures p in RectOutline(r, 0) <==> OnBorder(r, p)
  {
    SolidSides(r);
    SolidOutlineIsBorder(r, p);
  }

  lemma SolidOutlineIsBorder(r: Rect, p: Point)
    requires r.w >= 1 && r.h >= 1
    ensures p in SolidOutline(r) <==> OnBorder(r, p)
  {
    RowSegMembers(r.x, r.w, r.y, p);
    ColSegMembers(r.x, r.y + 1, r.h, p);
    ColSegMembers(r.x + r.w, r.y, r.h, p);
    RowSegMembers(r.x + 1, r.w, r.y + r.h, p);
  }

  /** ... and draws each of its cells once. */
  lemma RectOutlineOnce(r: Rect)
    requires r.w >= 1 && r.h >= 1
    ensures NoRepeats(RectOutline(r, 0))
  {
    SolidSides(r);
    SolidOutlineOnce(r);
  }

  lemma SolidOutlineOnce(r: Rect)
    requires r.w >= 1 && r.h >= 1
    ensures NoRepeats(SolidOutline(r))
  {
    var top, left, right, bottom := RowSeg(r.x, r.w, r.y), ColSeg(r.x, r.y + 1, r.h),
                                    ColSeg(r.x + r.w, r.y, r.h), RowSeg(r.x + 1, r.w, r.y + r.h);
    RowSegNoRepeats(r.x, r.w, r.y);
    ColSegNoRepeats(r.x, r.y + 1, r.h);
    ColSegNoRepeats(r.x + r.w, r.y, r.h);
    RowSegNoRepeats(r.x + 1, r.w, r.y + r.h);
    forall q | q in top ensures q !in left {
      RowSegMembers(r.x, r.w, r.y, q);
      ColSegMembers(r.x, r.y + 1, r.h, q);
    }
    NoRepeatsConcat(top, left);
    var tl := top + left;
    forall q | q in tl ensures q !in right {
      RowSegMembers(r.x, r.w, r.y, q);
      ColSegMembers(r.x, r.y + 1, r.h, q);
      ColSegMembers(r.x + r.w, r.y, r.h, q);
    }
    NoRepeatsConcat(tl, right);
    var tlr := tl + right;
    forall q | q in tlr ensures q !in bottom {
      RowSegMembers(r.x, r.w, r.y, q);
      ColSegMembers(r.x, r.y + 1, r.h, q);
      ColSegMembers(r.x + r.w, r.y, r.h, q);
      RowSegMembers(r.x + 1, r.w, r.y + r.h, q);
    }
    NoRepeatsConcat(tlr, bottom);
  }

  /** A solid triangle outline passes through its three vertices. */
  lemma TriangleOutlineHasVertices(x1: int, y1: int, x2: int, y2: int, x3: int, y3: int)
    ensures Point(x1, y1) in TriangleOutline(x1, y1, x2, y2, x3, y3, 0)
    ensures Point(x2, y2) in TriangleOutline(x1, y1, x2, y2, x3, y3, 0)
    ensures Point(x3, y3) in TriangleOutline(x1, y1, x2, y2, x3, y3, 0)
  {
    LineIncludesEndpoints(x1, y1, x2, y2);
    LineIncludesEndpoints(x2, y2, x3, y3);
  }

  /** A solid triangle outline is the three full edge traces in order, one
      point per step along each edge's major axis. */
  lemma TriangleOutlineSolid(x1: int, y1: int, x2: int, y2: int, x3: int, y3: int, n: int)
    requires n <= 0
    ensures TriangleOutline(x1, y1, x2, y2, x3, y3, n) ==
      LineTrace(x1, y1, x2, y2) + LineTrace(x2, y2, x3, y3) + LineTrace(x3, y3, x1, y1)
    ensures |TriangleOutline(x1, y1, x2, y2, x3, y3, n)| ==
      Max(Abs(x2 - x1), Abs(y2 - y1)) + Max(Abs(x3 - x2), Abs(y3 - y2)) + Max(Abs(x1 - x3), Abs(y1 - y3)) + 3
  {
    DashedSolid(LineTrace(x1, y1, x2, y2), n);
    DashedSolid(LineTrace(x2, y2, x3, y3), n);
    DashedSolid(LineTrace(x3, y3, x1, y1), n);
    LineTraceLength(x1, y1, x2, y2);
    LineTraceLength(x2, y2, x3, y3);
    LineTraceLength(x3, y3, x1, y1);
  }

  // ---------------------------------------------------------------------
  // Filled rectangles

  /** Row y from x = lo to hi - 1, empty when lo >= hi. */
  function Row(lo: int, hi: int, y: int): seq<Point>
  {
    if lo >= hi then [] else RowSeg(lo, hi - lo, y)
  }

  /** Rows ylo to yhi - 1 of the columns [xlo, xhi), top to bottom. */
  function Rows(xlo: int, xhi: int, ylo: int, yhi: int): seq<Point>
    decreases yhi - ylo
  {
    if ylo >= yhi then [] else Rows(xlo, xhi, ylo, yhi - 1) + Row(xlo, xhi, yhi - 1)
  }

  /** The points PIF_imageFillRect draws on a w×h image: its loops skip
      coordinates below 0 and stop at the image's edge, so they scan the
      rectangle clipped to the image, row by row. */
  function FillRectPoints(r: Rect, w: int, h: int): seq<Point>
  {
    Rows(Max(r.x, 0), Min(r.x + r.w, w), Max(r.y, 0), Min(r.y + r.h, h))
  }

  /** The inner loop of PIF_imageFillRect: the row scanned up to x, then one cell more. */
  lemma RowSnoc(lo: int, x: int, y: int)
    requires lo <= x
    ensures Row(lo, x + 1, y) == Row(lo, x, y) + [Point(x, y)]
  {
    if lo < x {
      assert Row(lo, x + 1, y)[..x - lo] == Row(lo, x, y);
    }
  }

  lemma RowMembers(lo: int, hi: int, y: int, p: Point)
    ensures p in Row(lo, hi, y) <==> p.y == y && lo <= p.x < hi
  {
    if lo < hi {
      RowSegMembers(lo, hi - lo, y, p);
    }
  }

  lemma {:induction false} RowsMembers(xlo: int, xhi: int, ylo: int, yhi: int, p: Point)
    ensures p in Rows(xlo, xhi, ylo, yhi) <==> xlo <= p.x < xhi && ylo <= p.y < yhi
    decreases yhi - ylo
  {
    if ylo < yhi {
      RowsMembers(xlo, xhi, ylo, yhi - 1, p);
      RowMembers(xlo, xhi, yhi - 1, p);
    }
  }

  lemma {:induction false} RowsNoRepeats(xlo: int, xhi: int, ylo: int, yhi: int)
    ensures NoRepeats(Rows(xlo, xhi, ylo, yhi))
    decreases yhi - ylo
  {
    if ylo < yhi {
      RowsNoRepeats(xlo, xhi, ylo, yhi - 1);
      if xlo < xhi {
        RowSegNoRepeats(xlo, xhi - xlo, yhi - 1);
      }
      var above, row := Rows(xlo, xhi, ylo, yhi - 1), Row(xlo, xhi, yhi - 1);
      forall q | q in above ensures q !in row {
        RowsMembers(xlo, xhi, ylo, yhi - 1, q);
        RowMembers(xlo, xhi, yhi - 1, q);
      }
      NoRepeatsConcat(above, row);
    }
  }

  /** The filled cells are exactly the in-image cells of the rectangle,
      each drawn once. */
  lemma FillRectFootprint(r: Rect, w: int, h: int, p: Point)
    ensures p in FillRectPoints(r, w, h) <==>
      InImage(w, h, p.x, p.y) && r.x <= p.x < r.x + r.w && r.y <= p.y < r.y + r.h
    ensures NoRepeats(FillRectPoints(r, w, h))
  {
    RowsMembers(Max(r.x, 0), Min(r.x + r.w, w), Max(r.y, 0), Min(r.y + r.h, h), p);
    RowsNoRepeats(Max(r.x, 0), Min(r.x + r.w, w), Max(r.y, 0), Min(r.y + r.h, h));
  }

  // ---------------------------------------------------------------------
  // Filled circles

  /** The cell the scan of PIF_imageFillCircle reaches at loop counters
      (x, y): it maps to (cx + r - x, cy + r - y) and is drawn when that is
      in the image and strictly inside the circle. */
  function DiskCell(cx: int, cy: int, r: int, w: int, h: int, y: int, x: int): seq<Point>
  {
    var dx, dy := r - x, r - y;
    if InImage(w, h, cx + dx, cy + dy) && dx * dx + dy * dy < r * r then [Point(cx + dx, cy + dy)] else []
  }

  /** The cells drawn for counters x in [0, k) of row y. */
  function DiskRow(cx: int, cy: int, r: int, w: int, h: int, y: int, k: int): seq<Point>
    decreases k
  {
    if k <= 0 then [] else DiskRow(cx, cy, r, w, h, y, k - 1) + DiskCell(cx, cy, r, w, h, y, k - 1)
  }

  /** The cells drawn for row counters in [0, m). */
  function DiskRows(cx: int, cy: int, r: int, w: int, h: int, m: int): seq<Point>
    decreases m
  {
    if m <= 0 then [] else DiskRows(cx, cy, r, w, h, m - 1) + DiskRow(cx, cy, r, w, h, m - 1, 2 * r)
  }

  /** The points PIF_imageFillCircle draws, in order: both counters run
      over [0, 2r). */
  function DiskPoints(cx: int, cy: int, r: int, w: int, h: int): seq<Point>
  {
    DiskRows(cx, cy, r, w, h, 2 * r)
  }

  /** A cell strictly inside the circle of radius r about (cx, cy), in the image. */
  ghost predicate InDisk(cx: int, cy: int, r: int, w: int, h: int, p: Point)
  {
    InImage(w, h, p.x, p.y) && (p.x - cx) * (p.x - cx) + (p.y - cy) * (p.y - cy) < r * r
  }

  lemma DiskCellMembers(cx: int, cy: int, r: int, w: int, h: int, y: int, x: int, p: Point)
    ensures p in DiskCell(cx, cy, r, w, h, y, x) <==>
      p == Point(cx + (r - x), cy + (r - y)) && InDisk(cx, cy, r, w, h, p)
  {
    if p == Point(cx + (r - x), cy + (r - y)) {
      assert p.x - cx == r - x && p.y - cy == r - y;
    }
  }

  lemma {:induction false} DiskRowMembers(cx: int, cy: int, r: int, w: int, h: int, y: int, k: int, p: Point)
    ensures p in DiskRow(cx, cy, r, w, h, y, k) <==>
      r - (p.y - cy) == y && 0 <= r - (p.x - cx) < k && InDisk(cx, cy, r, w, h, p)
    decreases k
  {
    if k > 0 {
      DiskRowMembers(cx, cy, r, w, h, y, k - 1, p);
      DiskCellMembers(cx, cy, r, w, h, y, k - 1, p);
    }
  }

  lemma DiskRowsMembers(cx: int, cy: int, r: int, w: int, h: int, m: int, p: Point)
    ensures p in DiskRows(cx, cy, r, w, h, m) <==>
      0 <= r - (p.y - cy) < m && 0 <= r - (p.x - cx) < 2 * r && InDisk(cx, cy, r, w, h, p)
  {
    DiskRowsOnly(cx, cy, r, w, h, m, p);
    if 0 <= r - (p.y - cy) < m && 0 <= r - (p.x - cx) < 2 * r && InDisk(cx, cy, r, w, h, p) {
      DiskRowsAll(cx, cy, r, w, h, m, p);
    }
  }

  lemma {:induction false} DiskRowsOnly(cx: int, cy: int, r: int, w: int, h: int, m: int, p: Point)
    ensures p in DiskRows(cx, cy, r, w, h, m) ==>
      0 <= r - (p.y - cy) < m && 0 <= r - (p.x - cx) < 2 * r && InDisk(cx, cy, r, w, h, p)
    decreases m
  {
    if m > 0 && p in DiskRows(cx, cy, r, w, h, m) {
      if p in DiskRows(cx, cy, r, w, h, m - 1) {
        DiskRowsOnly(cx, cy, r, w, h, m - 1, p);
      } else {
        DiskRowMembers(cx, cy, r, w, h, m - 1, 2 * r, p);
      }
    }
  }

  lemma InLeft(a: seq<Point>, b: seq<Point>, p: Point)
    requires p in a
    ensures p in a + b
  {
    assert (a + b)[..|a|] == a;
  }

  lemma InRight(a: seq<Point>, b: seq<Point>, p: Point)
    requires p in b
    ensures p in a + b
  {
    assert (a + b)[|a|..] == b;
  }

  lemma {:induction false} DiskRowsAll(cx: int, cy: int, r: int, w: int, h: int, m: int, p: Point)
    requires 0 <= r - (p.y - cy) < m && 0 <= r - (p.x - cx) < 2 * r && InDisk(cx, cy, r, w, h, p)
    ensures p in DiskRows(cx, cy, r, w, h, m)
    decreases m
  {
    var above, row := DiskRows(cx, cy, r, w, h, m - 1), DiskRow(cx, cy, r, w, h, m - 1, 2 * r);
    if r - (p.y - cy) < m - 1 {
      DiskRowsAll(cx, cy, r, w, h, m - 1, p);
      InLeft(above, row, p);
    } else {
      DiskRowMembers(cx, cy, r, w, h, m - 1, 2 * r, p);
      InRight(above, row, p);
    }
  }

  lemma {:induction false} DiskRowNoRepeats(cx: int, cy: int, r: int, w: int, h: int, y: int, k: int)
    ensures NoRepeats(DiskRow(cx, cy, r, w, h, y, k))
    decreases k
  {
    if k > 0 {
      DiskRowNoRepeats(cx, cy, r, w, h, y, k - 1);
      var before, cell := DiskRow(cx, cy, r, w, h, y, k - 1), DiskCell(cx, cy, r, w, h, y, k - 1);
      forall q | q in before ensures q !in cell {
        DiskRowMembers(cx, cy, r, w, h, y, k - 1, q);
      }
      NoRepeatsConcat(before, cell);
    }
  }

  lemma {:induction false} DiskRowsNoRepeats(cx: int, cy: int, r: int, w: int, h: int, m: int)
    ensures NoRepeats(DiskRows(cx, cy, r, w, h, m))
    decreases m
  {
    if m > 0 {
      DiskRowsNoRepeats(cx, cy, r, w, h, m - 1);
      DiskRowNoRepeats(cx, cy, r, w, h, m - 1, 2 * r);
      RowsApart(cx, cy, r, w, h, m - 1);
      NoRepeatsConcat(DiskRows(cx, cy, r, w, h, m - 1), DiskRow(cx, cy, r, w, h, m - 1, 2 * r));
    }
  }

  /** Row m is disjoint from the rows before it. */
  lemma RowsApart(cx: int, cy: int, r: int, w: int, h: int, m: int)
    ensures forall q :: q in DiskRows(cx, cy, r, w, h, m) ==> q !in DiskRow(cx, cy, r, w, h, m, 2 * r)
  {
    forall q | q in DiskRows(cx, cy, r, w, h, m)
      ensures q !in DiskRow(cx, cy, r, w, h, m, 2 * r)
    {
      DiskRowsMembers(cx, cy, r, w, h, m, q);
      DiskRowMembers(cx, cy, r, w, h, m, 2 * r, q);
    }
  }

  lemma MulMonotoneWhen(w: nat, a: int, b: int)
    ensures a <= b ==> w * a <= w * b
  {
    if a <= b {
      MulMonotone(w, a, b);
    }
  }

  /** Squares grow with the absolute value. */
  lemma SquareAtLeast(a: int, r: int)
    ensures r > 0 && Abs(a) >= r ==> a * a >= r * r
  {
    MulMonotoneWhen(if r > 0 then r else 0, r, Abs(a));
    MulMonotoneWhen(Abs(a), r, Abs(a));
    assert Abs(a) * Abs(a) == a * a;
  }

  /** A square below r² has its root strictly between -r and r. */
  lemma SquareBelow(a: int, b: int, r: int)
    requires r > 0 && a * a + b * b < r * r
    ensures -r < a < r
  {
    assert b * b == (-b) * (-b);
    assert b * b >= 0 by {
      MulMonotone(Abs(b), 0, Abs(b));
      assert Abs(b) * Abs(b) == b * b;
    }
    SquareAtLeast(a, r);
  }

  /** The filled circle is exactly the set of in-image cells strictly
      inside the circle of radius r, each drawn once; r <= 0 draws nothing. */
  lemma DiskFootprint(cx: int, cy: int, r: int, w: int, h: int, p: Point)
    ensures p in DiskPoints(cx, cy, r, w, h) <==> r > 0 && InDisk(cx, cy, r, w, h, p)
    ensures NoRepeats(DiskPoints(cx, cy, r, w, h))
  {
    DiskRowsMembers(cx, cy, r, w, h, 2 * r, p);
    DiskRowsNoRepeats(cx, cy, r, w, h, 2 * r);
    var dx, dy := p.x - cx, p.y - cy;
    if r > 0 && InDisk(cx, cy, r, w, h, p) {
      SquareBelow(dx, dy, r);
      SquareBelow(dy, dx, r);
    }
  }

  /** A row counter beyond which every cell maps left of the image draws
      nothing further: the scan's `break` on destX < 0 skips only cells
      that would not be drawn. */
  lemma {:induction false} DiskRowPastLeft(cx: int, cy: int, r: int, w: int, h: int, y: int, x: int, k: int)
    requires x <= k && cx + r - x < 0
    ensures DiskRow(cx, cy, r, w, h, y, k) == DiskRow(cx, cy, r, w, h, y, x)
    decreases k - x
  {
    if k > x {
      DiskRowPastLeft(cx, cy, r, w, h, y, x, k - 1);
    }
  }

  /** Likewise the `break` on destY < 0 skips only rows that draw nothing. */
  lemma {:induction false} DiskRowsPastTop(cx: int, cy: int, r: int, w: int, h: int, y: int, m: int)
    requires y <= m && cy + r - y < 0
    ensures DiskRows(cx, cy, r, w, h, m) == DiskRows(cx, cy, r, w, h, y)
    decreases m - y
  {
    if m > y {
      DiskRowsPastTop(cx, cy, r, w, h, y, m - 1);
      DiskRowEmpty(cx, cy, r, w, h, m - 1, 2 * r);
    }
  }

  /** A row that maps outside the image draws nothing (the `continue` on
      destY >= h, and rows above the image). */
  lemma {:induction false} DiskRowEmpty(cx: int, cy: int, r: int, w: int, h: int, y: int, k: int)
    requires !(0 <= cy + r - y < h)
    ensures DiskRow(cx, cy, r, w, h, y, k) == []
    decreases k
  {
    if k > 0 {
      DiskRowEmpty(cx, cy, r, w, h, y, k - 1);
    }
  }

  // ---------------------------------------------------------------------
  // Triangle vertices

  /** The three compare-and-swap steps that order the vertices of
      PIF_imageFillTriangle by y. */
  method SortVertices(x1: int, y1: int, x2: int, y2: int, x3: int, y3: int)
    returns (a1: int, b1: int, a2: int, b2: int, a3: int, b3: int)
    ensures b1 <= b2 <= b3
    ensures multiset{Point(a1, b1), Point(a2, b2), Point(a3, b3)} ==
            multiset{Point(x1, y1), Point(x2, y2), Point(x3, y3)}
  {
    a1, b1, a2, b2, a3, b3 := x1, y1, x2, y2, x3, y3;
    if b1 > b3 {
      a1, a3 := Swap(a1, a3);
      b1, b3 := Swap(b1, b3);
    }
    if b1 > b2 {
      a1, a2 := Swap(a1, a2);
      b1, b2 := Swap(b1, b2);
    }
    if b2 > b3 {
      a2, a3 := Swap(a2, a3);
      b2, b3 := Swap(b2, b3);
    }
  }
}
