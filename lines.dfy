/** The points PIF_imageDrawLine visits: Bresenham's algorithm with an
    integer error term, after swapping axes for steep lines and ordering
    the endpoints, and the dash pattern of its `n` parameter. */
module Lines {
  import opened Bytes
  import opened Grid

  /** The endpoints after the swaps: a is the major axis, b the minor one;
      `steep` records whether x and y were exchanged. */
  datatype LineSetup = LineSetup(steep: bool, a1: int, b1: int, a2: int, b2: int)

  function Setup(x1: int, y1: int, x2: int, y2: int): (s: LineSetup)
    ensures s.a1 <= s.a2
  {
    var steep := Abs(y2 - y1) > Abs(x2 - x1);
    var p1, q1, p2, q2 := if steep then y1 else x1, if steep then x1 else y1,
                          if steep then y2 else x2, if steep then x2 else y2;
    if p1 > p2 then LineSetup(steep, p2, q2, p1, q1) else LineSetup(steep, p1, q1, p2, q2)
  }

  /** The swaps make x the major axis exactly when the line is not steep,
      and the major-axis span the larger of the two spans. */
  lemma SetupShape(x1: int, y1: int, x2: int, y2: int)
    ensures var s := Setup(x1, y1, x2, y2);
      Abs(s.b2 - s.b1) <= s.a2 - s.a1 &&
      s.a2 - s.a1 == Max(Abs(x2 - x1), Abs(y2 - y1)) &&
      s.steep == (Abs(y2 - y1) > Abs(x2 - x1))
  {
  }

  /** Undoing the swaps gives back the two endpoints, in some order. */
  lemma SetupEnds(x1: int, y1: int, x2: int, y2: int)
    ensures var s := Setup(x1, y1, x2, y2);
      (Unswap(s.steep, s.a1, s.b1) == Point(x1, y1) && Unswap(s.steep, s.a2, s.b2) == Point(x2, y2)) ||
      (Unswap(s.steep, s.a1, s.b1) == Point(x2, y2) && Unswap(s.steep, s.a2, s.b2) == Point(x1, y1))
  {
  }

  /** Minor-axis steps taken so far and the error term. */
  datatype ErrState = ErrState(k: int, err: int)

  /** The error bookkeeping after i major-axis steps: err starts at
      distX / 2, loses distY per step, and when it drops below 0 the minor
      coordinate advances and err gains distX. */
  function Walk(distX: int, distY: int, i: nat): ErrState
    decreases i
  {
    if i == 0 then ErrState(0, distX / 2)
    else
      var st := Walk(distX, distY, i - 1);
      var e := st.err - distY;
      if e < 0 then ErrState(st.k + 1, e + distX) else ErrState(st.k, e)
  }

  /** The minor coordinate after k steps from b1 towards b2. */
  function Minor(b1: int, b2: int, k: int): int
  {
    if b1 < b2 then b1 + k else b1 - k
  }

  function Unswap(steep: bool, a: int, b: int): Point
  {
    if steep then Point(b, a) else Point(a, b)
  }

  /** The i-th point of the line, in image coordinates. */
  function TracePoint(s: LineSetup, i: nat): Point
  {
    var distX := s.a2 - s.a1;
    var distY := Abs(s.b2 - s.b1);
    Unswap(s.steep, s.a1 + i, Minor(s.b1, s.b2, Walk(distX, distY, i).k))
  }

  /** Every point the loop of PIF_imageDrawLine reaches, one per major step. */
  function LineTrace(x1: int, y1: int, x2: int, y2: int): seq<Point>
  {
    TraceOf(Setup(x1, y1, x2, y2))
  }

  /** The trace of a line already brought to its major-axis form. */
  function TraceOf(s: LineSetup): (t: seq<Point>)
    requires s.a1 <= s.a2
    ensures |t| == s.a2 - s.a1 + 1
  {
    seq(s.a2 - s.a1 + 1, i requires 0 <= i => TracePoint(s, i))
  }

  /** Whether step i is drawn: the draw flag starts true and flips whenever
      i is a multiple of n, so with n > 0 the steps of the odd blocks of n
      are drawn; n <= 0 draws every step. */
  predicate DashOn(i: nat, n: int)
  {
    n <= 0 || (i / n) % 2 == 1
  }

  /** The steps of `pts` that the dash pattern draws, in order. */
  function Dashed(pts: seq<Point>, n: int): (r: seq<Point>)
    ensures |r| <= |pts|
    decreases |pts|
  {
    if pts == [] then []
    else Dashed(pts[..|pts| - 1], n) + (if DashOn(|pts| - 1, n) then [pts[|pts| - 1]] else [])
  }

  /** The points PIF_imageDrawLine draws, in order. */
  function LinePoints(x1: int, y1: int, x2: int, y2: int, n: int): seq<Point>
  {
    Dashed(LineTrace(x1, y1, x2, y2), n)
  }

  // ---------------------------------------------------------------------
  // The error term

  /** The invariant the error term keeps: it stays in [0, distX) and
      err + i*distY == distX/2 + k*distX, with k growing by 0 or 1 a step. */
  lemma {:induction false} WalkInvariant(distX: int, distY: int, i: nat)
    requires 0 <= distY <= distX
    ensures var st := Walk(distX, distY, i);
      0 <= st.k <= i && 0 <= st.err && (st.err < distX || distX == 0) &&
      st.err + i * distY == distX / 2 + st.k * distX
    decreases i
  {
    if i > 0 {
      WalkInvariant(distX, distY, i - 1);
      var st := Walk(distX, distY, i - 1);
      WalkNext(distX, distY, i - 1, st.k, st.err);
      assert i * distY == (i - 1) * distY + distY;
      if st.err - distY < 0 {
        assert (st.k + 1) * distX == st.k * distX + distX;
      }
    }
  }

  /** The error update of one step, as the loop performs it. */
  lemma WalkNext(distX: int, distY: int, i: nat, k: int, err: int)
    requires Walk(distX, distY, i) == ErrState(k, err)
    ensures Walk(distX, distY, i + 1) ==
      if err - distY < 0 then ErrState(k + 1, err - distY + distX) else ErrState(k, err - distY)
  {
  }

  /** After distX steps the minor coordinate has moved exactly distY: the
      line ends on its far endpoint. */
  lemma WalkReachesEnd(distX: int, distY: int)
    requires 0 <= distY <= distX
    ensures Walk(distX, distY, distX).k == distY
  {
    WalkInvariant(distX, distY, distX);
    var st := Walk(distX, distY, distX);
    if distX > 0 {
      WalkEndArith(distX, distY, st.k, st.err);
    }
  }

  /** The arithmetic behind WalkReachesEnd: with the error term in
      [0, distX), the invariant pins k down to distY. */
  lemma WalkEndArith(distX: int, distY: int, k: int, err: int)
    requires distX > 0 && 0 <= err < distX
    requires err + distX * distY == distX / 2 + k * distX
    ensures k == distY
  {
    var d := k - distY;
    assert distX * d == distX * k - distX * distY;
    assert distX * d == err - distX / 2;
    MulOneBounds(distX, d);
  }

  /** A flat minor axis is never stepped. */
  lemma {:induction false} WalkFlat(distX: int, i: nat)
    requires 0 <= distX
    ensures Walk(distX, 0, i) == ErrState(0, distX / 2)
    decreases i
  {
    if i > 0 {
      WalkFlat(distX, i - 1);
    }
  }

  // ---------------------------------------------------------------------
  // Properties of the trace

  /** With n = 0 the line has max(|dx|, |dy|) + 1 points. */
  lemma LineTraceLength(x1: int, y1: int, x2: int, y2: int)
    ensures |LineTrace(x1, y1, x2, y2)| == Max(Abs(x2 - x1), Abs(y2 - y1)) + 1
    ensures |LinePoints(x1, y1, x2, y2, 0)| == |LineTrace(x1, y1, x2, y2)|
  {
    SetupShape(x1, y1, x2, y2);
    DashedSolid(LineTrace(x1, y1, x2, y2), 0);
  }

  /** The trace starts at one endpoint and ends at the other. */
  lemma LineTraceEnds(x1: int, y1: int, x2: int, y2: int)
    ensures var t := LineTrace(x1, y1, x2, y2);
      (t[0] == Point(x1, y1) && t[|t| - 1] == Point(x2, y2)) ||
      (t[0] == Point(x2, y2) && t[|t| - 1] == Point(x1, y1))
  {
    SetupShape(x1, y1, x2, y2);
    TraceEnds(Setup(x1, y1, x2, y2));
    SetupEnds(x1, y1, x2, y2);
  }

  /** In major-axis form the trace runs from (a1, b1) to (a2, b2). */
  lemma TraceEnds(s: LineSetup)
    requires s.a1 <= s.a2 && Abs(s.b2 - s.b1) <= s.a2 - s.a1
    ensures TraceOf(s)[0] == Unswap(s.steep, s.a1, s.b1)
    ensures TraceOf(s)[s.a2 - s.a1] == Unswap(s.steep, s.a2, s.b2)
  {
    var distX, distY := s.a2 - s.a1, Abs(s.b2 - s.b1);
    WalkReachesEnd(distX, distY);
    assert TraceOf(s)[distX] == TracePoint(s, distX);
    assert Minor(s.b1, s.b2, distY) == s.b2;
  }

  /** Both endpoints are drawn by a solid line. */
  lemma LineIncludesEndpoints(x1: int, y1: int, x2: int, y2: int)
    ensures Point(x1, y1) in LinePoints(x1, y1, x2, y2, 0)
    ensures Point(x2, y2) in LinePoints(x1, y1, x2, y2, 0)
  {
    LineTraceEnds(x1, y1, x2, y2);
    DashedSolid(LineTrace(x1, y1, x2, y2), 0);
  }

  /** Consecutive points advance by exactly one along the major axis and by
      at most one along the minor axis. */
  lemma LineTraceSteps(x1: int, y1: int, x2: int, y2: int, i: nat)
    requires i + 1 < |LineTrace(x1, y1, x2, y2)|
    ensures var t := LineTrace(x1, y1, x2, y2);
      if Abs(y2 - y1) > Abs(x2 - x1) then t[i + 1].y == t[i].y + 1 && Abs(t[i + 1].x - t[i].x) <= 1
      else t[i + 1].x == t[i].x + 1 && Abs(t[i + 1].y - t[i].y) <= 1
  {
    SetupShape(x1, y1, x2, y2);
    TraceSteps(Setup(x1, y1, x2, y2), i);
  }

  /** LineTraceSteps in major-axis form. */
  lemma TraceSteps(s: LineSetup, i: nat)
    requires s.a1 <= s.a2 && Abs(s.b2 - s.b1) <= s.a2 - s.a1 && i < s.a2 - s.a1
    ensures var t := TraceOf(s);
      if s.steep then t[i + 1].y == t[i].y + 1 && Abs(t[i + 1].x - t[i].x) <= 1
      else t[i + 1].x == t[i].x + 1 && Abs(t[i + 1].y - t[i].y) <= 1
  {
    WalkInvariant(s.a2 - s.a1, Abs(s.b2 - s.b1), i);
    var st := Walk(s.a2 - s.a1, Abs(s.b2 - s.b1), i);
    WalkNext(s.a2 - s.a1, Abs(s.b2 - s.b1), i, st.k, st.err);
  }

  /** The major coordinate of the i-th point is a1 + i: the trace is
      strictly monotone along the major axis and so visits no point twice. */
  lemma LineTraceNoRepeats(x1: int, y1: int, x2: int, y2: int)
    ensures NoRepeats(LineTrace(x1, y1, x2, y2))
  {
    var s := Setup(x1, y1, x2, y2);
    var t := LineTrace(x1, y1, x2, y2);
    forall i, j | 0 <= i < j < |t|
      ensures t[i] != t[j]
    {
      if s.steep {
        assert t[i].y == s.a1 + i && t[j].y == s.a1 + j;
      } else {
        assert t[i].x == s.a1 + i && t[j].x == s.a1 + j;
      }
    }
  }

  /** A horizontal line visits the cells between its endpoints, left to right. */
  lemma HorizontalTrace(x1: int, x2: int, y: int)
    ensures LineTrace(x1, y, x2, y) == seq(Abs(x2 - x1) + 1, i => Point(Min(x1, x2) + i, y))
  {
    var t := LineTrace(x1, y, x2, y);
    var s := Setup(x1, y, x2, y);
    forall i | 0 <= i < |t|
      ensures t[i] == Point(Min(x1, x2) + i, y)
    {
      WalkFlat(s.a2 - s.a1, i);
    }
  }

  /** A vertical line visits the cells between its endpoints, top to bottom. */
  lemma VerticalTrace(x: int, y1: int, y2: int)
    requires y1 != y2
    ensures LineTrace(x, y1, x, y2) == seq(Abs(y2 - y1) + 1, i => Point(x, Min(y1, y2) + i))
  {
    var t := LineTrace(x, y1, x, y2);
    var s := Setup(x, y1, x, y2);
    forall i | 0 <= i < |t|
      ensures t[i] == Point(x, Min(y1, y2) + i)
    {
      WalkFlat(s.a2 - s.a1, i);
    }
  }

  // ---------------------------------------------------------------------
  // Dashing

  /** n <= 0 draws every step. */
  lemma {:induction false} DashedSolid(pts: seq<Point>, n: int)
    requires n <= 0
    ensures Dashed(pts, n) == pts
    decreases |pts|
  {
    if pts != [] {
      DashedSolid(pts[..|pts| - 1], n);
    }
  }

  /** One more step of the trace: it is appended when its flag is on. */
  lemma DashedSnoc(pts: seq<Point>, n: int, i: nat)
    requires i < |pts|
    ensures Dashed(pts[..i + 1], n) == Dashed(pts[..i], n) + (if DashOn(i, n) then [pts[i]] else [])
  {
    assert pts[..i + 1][..i] == pts[..i];
  }

  /** The i-th point of the trace, given the minor steps taken so far. */
  lemma LineTraceAt(x1: int, y1: int, x2: int, y2: int, i: nat, k: int)
    requires i <= Setup(x1, y1, x2, y2).a2 - Setup(x1, y1, x2, y2).a1
    requires var s := Setup(x1, y1, x2, y2); Walk(s.a2 - s.a1, Abs(s.b2 - s.b1), i).k == k
    ensures var s := Setup(x1, y1, x2, y2);
      LineTrace(x1, y1, x2, y2)[i] == Unswap(s.steep, s.a1 + i, Minor(s.b1, s.b2, k))
  {
  }

  /** The points the loop has drawn after its first i steps. */
  function LinePrefix(s: LineSetup, n: int, i: nat): seq<Point>
    requires s.a1 <= s.a2 && i <= s.a2 - s.a1 + 1
  {
    Dashed(TraceOf(s)[..i], n)
  }

  /** Step i of the loop adds the i-th trace point exactly when its dash
      flag is on. */
  lemma LinePrefixStep(s: LineSetup, n: int, i: nat, k: int, p: Point)
    requires s.a1 <= s.a2 && i <= s.a2 - s.a1
    requires Walk(s.a2 - s.a1, Abs(s.b2 - s.b1), i).k == k
    requires p == Unswap(s.steep, s.a1 + i, Minor(s.b1, s.b2, k))
    ensures DashOn(i, n) ==> LinePrefix(s, n, i + 1) == LinePrefix(s, n, i) + [p]
    ensures !DashOn(i, n) ==> LinePrefix(s, n, i + 1) == LinePrefix(s, n, i)
  {
    var t := TraceOf(s);
    DashedSnoc(t, n, i);
    assert t[i] == p;
    assert Dashed(t[..i], n) + [] == Dashed(t[..i], n);
  }

  /** The loop starts with nothing drawn and ends with the whole line. */
  lemma LinePrefixEnds(x1: int, y1: int, x2: int, y2: int, n: int)
    ensures var s := Setup(x1, y1, x2, y2);
      LinePrefix(s, n, 0) == [] && LinePrefix(s, n, s.a2 - s.a1 + 1) == LinePoints(x1, y1, x2, y2, n)
  {
    var t := LineTrace(x1, y1, x2, y2);
    assert t[..|t|] == t;
  }

  /** A point is drawn exactly when some step whose dash flag is on visits it. */
  lemma {:induction false} DashedMembers(pts: seq<Point>, n: int, p: Point)
    ensures p in Dashed(pts, n) <==> exists i :: 0 <= i < |pts| && DashOn(i, n) && pts[i] == p
    decreases |pts|
  {
    if pts != [] {
      var front := pts[..|pts| - 1];
      DashedMembers(front, n, p);
      if p in Dashed(pts, n) && p !in Dashed(front, n) {
        assert DashOn(|pts| - 1, n) && pts[|pts| - 1] == p;
      }
      if exists i :: 0 <= i < |pts| && DashOn(i, n) && pts[i] == p {
        var i :| 0 <= i < |pts| && DashOn(i, n) && pts[i] == p;
        if i < |pts| - 1 {
          assert front[i] == p;
        }
      }
    }
  }

  /** Dashing keeps a sequence free of repeated points. */
  lemma {:induction false} DashedNoRepeats(pts: seq<Point>, n: int)
    requires NoRepeats(pts)
    ensures NoRepeats(Dashed(pts, n))
    decreases |pts|
  {
    if pts != [] {
      var front := pts[..|pts| - 1];
      var last := pts[|pts| - 1];
      assert NoRepeats(front) by {
        assert forall i :: 0 <= i < |front| ==> front[i] == pts[i];
      }
      DashedNoRepeats(front, n);
      if DashOn(|pts| - 1, n) {
        var df := Dashed(front, n);
        assert last !in df by {
          DashedMembers(front, n, last);
          assert forall i :: 0 <= i < |front| ==> front[i] == pts[i] && i < |pts| - 1;
        }
        var d := Dashed(pts, n);
        assert d == df + [last];
        forall i, j | 0 <= i < j < |d|
          ensures d[i] != d[j]
        {
          if j == |d| - 1 {
            assert d[i] == df[i] && df[i] in df;
          } else {
            assert d[i] == df[i] && d[j] == df[j];
          }
        }
      } else {
        assert Dashed(pts, n) == Dashed(front, n) + [];
      }
    }
  }

  /** The loop's error update after step i: err loses distY and, when it
      drops below 0, the minor coordinate moves one step and err gains
      distX. The ghost k counts the minor steps taken. */
  method ErrAdvance(distX: int, distY: int, stepY: int, ay1: int, err: int, ghost i: nat, ghost k: int)
    returns (ay1': int, err': int, ghost k': int)
    requires Walk(distX, distY, i) == ErrState(k, err)
    ensures Walk(distX, distY, i + 1) == ErrState(k', err')
    ensures (k' == k && ay1' == ay1) || (k' == k + 1 && ay1' == ay1 + stepY)
  {
    WalkNext(distX, distY, i, k, err);
    ay1', err', k' := ay1, err - distY, k;
    if err' < 0 {
      ay1' := ay1' + stepY;
      err' := err' + distX;
      k' := k' + 1;
    }
  }

  /** The loop's dash flag update at step i: with n > 0 the flag flips
      whenever i is a multiple of n; the result is DashOn(i, n). */
  method NextDraw(draw: bool, i: nat, n: int) returns (next: bool)
    requires draw == (i == 0 || DashOn(i - 1, n))
    ensures next == DashOn(i, n)
  {
    next := draw;
    if n > 0 && i % n == 0 {
      next := !next;
    }
    if n > 0 {
      DashFlip(i, n);
    }
  }

  /** The flag update of the loop: flipping at every multiple of n yields
      DashOn, and the flag is off for the first block (it flips at i = 0). */
  lemma DashFlip(i: nat, n: int)
    requires n > 0
    ensures i == 0 ==> !DashOn(0, n)
    ensures i > 0 ==> DashOn(i, n) == if i % n == 0 then !DashOn(i - 1, n) else DashOn(i - 1, n)
  {
    if i > 0 {
      var q, r := (i - 1) / n, (i - 1) % n;
      if r + 1 < n {
        DivModUnique(i, n, q, r + 1);
      } else {
        assert i == n * (q + 1) + 0;
        DivModUnique(i, n, q + 1, 0);
      }
    }
  }
}
