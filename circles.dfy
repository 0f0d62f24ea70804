/** The points PIF_imageDrawCircle visits: the midpoint circle algorithm
    walks one octant from (r - 1, 0) and draws the eight reflections of
    every point it reaches, dashed per step like a line. */
module Circles {
  import opened Bytes
  import opened Grid
  import opened Lines

  /** The loop variables of the midpoint algorithm. */
  datatype CircleState = CircleState(x: int, y: int, dx: int, dy: int, err: int)

  /** The state before the first step; `r << 1` is 2r. */
  function CircleStart(r: int): CircleState
  {
    CircleState(r - 1, 0, 1, 1, 1 - 2 * r)
  }

  /** One iteration's update: step y while err <= 0, then step x inward
      while err > 0. */
  function CircleStep(r: int, s: CircleState): (t: CircleState)
    ensures t.x - t.y < s.x - s.y
  {
    var s1 := if s.err <= 0 then s.(y := s.y + 1, err := s.err + s.dy, dy := s.dy + 2) else s;
    if s1.err > 0 then s1.(x := s1.x - 1, dx := s1.dx + 2, err := s1.err + (s1.dx + 2) - 2 * r)
    else s1
  }

  /** The loop's variable updates, in the source's order. */
  method CircleAdvance(r: int, x: int, y: int, dx: int, dy: int, err: int)
    returns (x': int, y': int, dx': int, dy': int, err': int)
    ensures CircleState(x', y', dx', dy', err') == CircleStep(r, CircleState(x, y, dx, dy, err))
  {
    x', y', dx', dy', err' := x, y, dx, dy, err;
    if err' <= 0 {
      y' := y' + 1;
      err' := err' + dy';
      dy' := dy' + 2;
    }
    if err' > 0 {
      x' := x' - 1;
      dx' := dx' + 2;
      err' := err' + dx' - 2 * r;
    }
  }

  /** The states at the head of each iteration, while x >= y. */
  function Octant(r: int, s: CircleState): seq<CircleState>
    decreases if s.x < s.y then 0 else s.x - s.y + 1
  {
    if s.x < s.y then [] else [s] + Octant(r, CircleStep(r, s))
  }

  /** The eight points drawn for one octant point, in the source's order. */
  function Eight(cx: int, cy: int, s: CircleState): seq<Point>
  {
    Reflections(cx, cy, s.x, s.y)
  }

  /** The eight reflections of the offset (x, y) about the centre. */
  function Reflections(cx: int, cy: int, x: int, y: int): seq<Point>
  {
    [Point(cx + x, cy + y), Point(cx + y, cy + x), Point(cx - y, cy + x), Point(cx - x, cy + y),
     Point(cx - x, cy - y), Point(cx - y, cy - x), Point(cx + y, cy - x), Point(cx + x, cy - y)]
  }

  /** The points drawn for the iterations `heads`, dashed per iteration. */
  function CircleDrawn(heads: seq<CircleState>, cx: int, cy: int, n: int): seq<Point>
    decreases |heads|
  {
    if heads == [] then []
    else
      CircleDrawn(heads[..|heads| - 1], cx, cy, n) +
      (if DashOn(|heads| - 1, n) then Eight(cx, cy, heads[|heads| - 1]) else [])
  }

  /** The points PIF_imageDrawCircle draws, in order. */
  function CirclePoints(cx: int, cy: int, r: int, n: int): seq<Point>
  {
    CircleDrawn(Octant(r, CircleStart(r)), cx, cy, n)
  }

  /** One more iteration head adds its eight points when its dash flag is on. */
  lemma CircleDrawnSnoc(heads: seq<CircleState>, h: CircleState, cx: int, cy: int, n: int)
    ensures CircleDrawn(heads + [h], cx, cy, n) ==
      CircleDrawn(heads, cx, cy, n) + (if DashOn(|heads|, n) then Eight(cx, cy, h) else [])
  {
    assert (heads + [h])[..|heads|] == heads;
  }

  /** The loop's progress: the heads seen so far followed by the heads
      still to come from the current state make up the whole octant. */
  lemma OctantNext(r: int, done: seq<CircleState>, s: CircleState)
    requires Octant(r, CircleStart(r)) == done + Octant(r, s) && s.x >= s.y
    ensures Octant(r, CircleStart(r)) == (done + [s]) + Octant(r, CircleStep(r, s))
  {
    var rest := Octant(r, CircleStep(r, s));
    assert Octant(r, s) == [s] + rest;
    assert done + ([s] + rest) == (done + [s]) + rest;
  }

  /** What the loop keeps: err is x² + y² - r², dx and dy are the next odd
      increments, and at every iteration head the point lies on or inside
      the circle while the next point outward along x does not. */
  ghost predicate CircleInv(r: int, s: CircleState)
  {
    s.err == s.x * s.x + s.y * s.y - r * r &&
    s.dx == 2 * r - 2 * s.x - 1 && s.dy == 2 * s.y + 1 &&
    0 <= s.y && s.x < r &&
    (s.x >= s.y ==> -2 * s.x - 1 <= s.err <= 0)
  }

  /** An octant point: 0 <= y <= x < r and x² + y² <= r² <= (x + 1)² + y². */
  ghost predicate OnOctant(r: int, h: CircleState)
  {
    0 <= h.y <= h.x < r &&
    h.x * h.x + h.y * h.y <= r * r <= (h.x + 1) * (h.x + 1) + h.y * h.y
  }

  lemma CircleStartInv(r: int)
    ensures CircleInv(r, CircleStart(r))
  {
    assert (r - 1) * (r - 1) == r * r - 2 * r + 1;
  }

  /** Each iteration keeps the invariant, advances y by one and x by at most one. */
  lemma CircleStepInv(r: int, s: CircleState)
    requires CircleInv(r, s) && s.x >= s.y
    ensures var t := CircleStep(r, s);
      CircleInv(r, t) && t.y == s.y + 1 && (t.x == s.x || t.x == s.x - 1)
  {
    assert (s.y + 1) * (s.y + 1) == s.y * s.y + 2 * s.y + 1;
    assert (s.x - 1) * (s.x - 1) == s.x * s.x - 2 * s.x + 1;
  }

  /** A head that satisfies the invariant is an octant point. */
  lemma InvOnOctant(r: int, s: CircleState)
    requires CircleInv(r, s) && s.x >= s.y
    ensures OnOctant(r, s)
  {
    assert (s.x + 1) * (s.x + 1) == s.x * s.x + 2 * s.x + 1;
  }

  /** From a state satisfying the invariant, the i-th head has y = s.y + i,
      x at most s.x, and lies on the octant. */
  lemma {:induction false} OctantHeads(r: int, s: CircleState)
    requires CircleInv(r, s)
    ensures forall i :: 0 <= i < |Octant(r, s)| ==>
      Octant(r, s)[i].y == s.y + i && Octant(r, s)[i].x <= s.x && OnOctant(r, Octant(r, s)[i])
    decreases if s.x < s.y then 0 else s.x - s.y + 1
  {
    if s.x >= s.y {
      var t := CircleStep(r, s);
      CircleStepInv(r, s);
      InvOnOctant(r, s);
      OctantHeads(r, t);
      var hs, ts := Octant(r, s), Octant(r, t);
      assert hs == [s] + ts;
      forall i | 0 <= i < |hs|
        ensures hs[i].y == s.y + i && hs[i].x <= s.x && OnOctant(r, hs[i])
      {
        if i > 0 {
          assert hs[i] == ts[i - 1];
        }
      }
    }
  }

  /** A circle of radius r <= 0 draws nothing. */
  lemma CircleEmpty(cx: int, cy: int, r: int, n: int)
    requires r <= 0
    ensures CirclePoints(cx, cy, r, n) == []
  {
  }

  /** The i-th iteration's octant point has y = i and lies on the octant. */
  lemma CircleHeads(r: int)
    ensures forall i :: 0 <= i < |Octant(r, CircleStart(r))| ==>
      Octant(r, CircleStart(r))[i].y == i && Octant(r, CircleStart(r))[i].x <= r - 1 &&
      OnOctant(r, Octant(r, CircleStart(r))[i])
  {
    CircleStartInv(r);
    OctantHeads(r, CircleStart(r));
  }

  /** A point is drawn exactly when it is one of the eight reflections of
      the octant point of an iteration whose dash flag is on. */
  lemma {:induction false} CircleDrawnMembers(heads: seq<CircleState>, cx: int, cy: int, n: int, p: Point)
    ensures p in CircleDrawn(heads, cx, cy, n) <==>
      exists i :: 0 <= i < |heads| && DashOn(i, n) && p in Eight(cx, cy, heads[i])
    decreases |heads|
  {
    if heads != [] {
      var front := heads[..|heads| - 1];
      CircleDrawnMembers(front, cx, cy, n, p);
      if exists i :: 0 <= i < |heads| && DashOn(i, n) && p in Eight(cx, cy, heads[i]) {
        var i :| 0 <= i < |heads| && DashOn(i, n) && p in Eight(cx, cy, heads[i]);
        if i < |heads| - 1 {
          assert front[i] == heads[i];
        }
      }
      if p in CircleDrawn(heads, cx, cy, n) && p !in CircleDrawn(front, cx, cy, n) {
        assert DashOn(|heads| - 1, n) && p in Eight(cx, cy, heads[|heads| - 1]);
      }
    }
  }

  /** The circle's points are exactly the reflections of the octant heads
      whose dash flag is on. */
  lemma CirclePointsMembers(cx: int, cy: int, r: int, n: int, p: Point)
    ensures p in CirclePoints(cx, cy, r, n) <==>
      exists i :: 0 <= i < |Octant(r, CircleStart(r))| && DashOn(i, n) && p in Eight(cx, cy, Octant(r, CircleStart(r))[i])
  {
    CircleDrawnMembers(Octant(r, CircleStart(r)), cx, cy, n, p);
  }

  /** The reflections of an octant point: each is the point or its
      mirror image, offset from the centre by (+-x, +-y) or (+-y, +-x). */
  lemma EightOffsets(cx: int, cy: int, h: CircleState, p: Point)
    requires 0 <= h.y <= h.x && p in Eight(cx, cy, h)
    ensures var u, v := Abs(p.x - cx), Abs(p.y - cy);
      (u == h.x && v == h.y) || (u == h.y && v == h.x)
  {
  }

  /** Reflecting any of the eight points gives one of the eight. */
  lemma EightSymmetric(cx: int, cy: int, h: CircleState, p: Point)
    requires p in Eight(cx, cy, h)
    ensures Point(2 * cx - p.x, p.y) in Eight(cx, cy, h)
    ensures Point(p.x, 2 * cy - p.y) in Eight(cx, cy, h)
    ensures Point(cx + (p.y - cy), cy + (p.x - cx)) in Eight(cx, cy, h)
  {
    var e := Eight(cx, cy, h);
    if p == e[0] {
      assert Point(2 * cx - p.x, p.y) == e[3] && Point(p.x, 2 * cy - p.y) == e[7];
      assert Point(cx + (p.y - cy), cy + (p.x - cx)) == e[1];
    } else if p == e[1] {
      assert Point(2 * cx - p.x, p.y) == e[2] && Point(p.x, 2 * cy - p.y) == e[6];
      assert Point(cx + (p.y - cy), cy + (p.x - cx)) == e[0];
    } else if p == e[2] {
      assert Point(2 * cx - p.x, p.y) == e[1] && Point(p.x, 2 * cy - p.y) == e[5];
      assert Point(cx + (p.y - cy), cy + (p.x - cx)) == e[7];
    } else if p == e[3] {
      assert Point(2 * cx - p.x, p.y) == e[0] && Point(p.x, 2 * cy - p.y) == e[4];
      assert Point(cx + (p.y - cy), cy + (p.x - cx)) == e[6];
    } else if p == e[4] {
      assert Point(2 * cx - p.x, p.y) == e[7] && Point(p.x, 2 * cy - p.y) == e[3];
      assert Point(cx + (p.y - cy), cy + (p.x - cx)) == e[5];
    } else if p == e[5] {
      assert Point(2 * cx - p.x, p.y) == e[6] && Point(p.x, 2 * cy - p.y) == e[2];
      assert Point(cx + (p.y - cy), cy + (p.x - cx)) == e[4];
    } else if p == e[6] {
      assert Point(2 * cx - p.x, p.y) == e[5] && Point(p.x, 2 * cy - p.y) == e[1];
      assert Point(cx + (p.y - cy), cy + (p.x - cx)) == e[3];
    } else {
      assert p == e[7];
      assert Point(2 * cx - p.x, p.y) == e[4] && Point(p.x, 2 * cy - p.y) == e[0];
      assert Point(cx + (p.y - cy), cy + (p.x - cx)) == e[2];
    }
  }

  /** The reflections of an octant point lie on the circle's boundary band. */
  lemma EightOnCircle(cx: int, cy: int, r: int, h: CircleState, p: Point)
    requires OnOctant(r, h) && p in Eight(cx, cy, h)
    ensures var u, v := Abs(p.x - cx), Abs(p.y - cy);
      u * u + v * v <= r * r &&
      r * r <= (Max(u, v) + 1) * (Max(u, v) + 1) + Min(u, v) * Min(u, v) &&
      Max(u, v) < r
  {
    EightOffsets(cx, cy, h, p);
    var u, v := Abs(p.x - cx), Abs(p.y - cy);
    assert Max(u, v) == h.x && Min(u, v) == h.y;
    assert u * u + v * v == h.x * h.x + h.y * h.y;
  }

  /** Every drawn point is within the closed disk of radius r around the
      centre, and one more pixel outward along its major axis is not inside. */
  lemma CirclePointsOnCircle(cx: int, cy: int, r: int, n: int, p: Point)
    requires p in CirclePoints(cx, cy, r, n)
    ensures var u, v := Abs(p.x - cx), Abs(p.y - cy);
      u * u + v * v <= r * r &&
      r * r <= (Max(u, v) + 1) * (Max(u, v) + 1) + Min(u, v) * Min(u, v) &&
      Max(u, v) < r
  {
    CirclePointsMembers(cx, cy, r, n, p);
    CircleHeads(r);
    var hs := Octant(r, CircleStart(r));
    var i :| 0 <= i < |hs| && DashOn(i, n) && p in Eight(cx, cy, hs[i]);
    EightOnCircle(cx, cy, r, hs[i], p);
  }

  /** The drawn set is symmetric about the vertical and horizontal lines
      through the centre and about the diagonal. */
  lemma CircleSymmetric(cx: int, cy: int, r: int, n: int, p: Point)
    requires p in CirclePoints(cx, cy, r, n)
    ensures Point(2 * cx - p.x, p.y) in CirclePoints(cx, cy, r, n)
    ensures Point(p.x, 2 * cy - p.y) in CirclePoints(cx, cy, r, n)
    ensures Point(cx + (p.y - cy), cy + (p.x - cx)) in CirclePoints(cx, cy, r, n)
  {
    var hs := Octant(r, CircleStart(r));
    CirclePointsMembers(cx, cy, r, n, p);
    var i :| 0 <= i < |hs| && DashOn(i, n) && p in Eight(cx, cy, hs[i]);
    EightSymmetric(cx, cy, hs[i], p);
    var q1, q2, q3 := Point(2 * cx - p.x, p.y), Point(p.x, 2 * cy - p.y), Point(cx + (p.y - cy), cy + (p.x - cx));
    CirclePointsMembers(cx, cy, r, n, q1);
    CirclePointsMembers(cx, cy, r, n, q2);
    CirclePointsMembers(cx, cy, r, n, q3);
  }

  /** A solid circle of radius r >= 1 draws the four points at distance
      r - 1 along the axes. */
  lemma CircleAxisPoints(cx: int, cy: int, r: int)
    requires r >= 1
    ensures Point(cx + r - 1, cy) in CirclePoints(cx, cy, r, 0)
    ensures Point(cx - (r - 1), cy) in CirclePoints(cx, cy, r, 0)
    ensures Point(cx, cy + r - 1) in CirclePoints(cx, cy, r, 0)
    ensures Point(cx, cy - (r - 1)) in CirclePoints(cx, cy, r, 0)
  {
    var hs := Octant(r, CircleStart(r));
    assert hs[0] == CircleStart(r);
    var e := Eight(cx, cy, hs[0]);
    assert DashOn(0, 0);
    assert Point(cx + r - 1, cy) == e[0] && Point(cx - (r - 1), cy) == e[3];
    assert Point(cx, cy + r - 1) == e[1] && Point(cx, cy - (r - 1)) == e[6];
    CirclePointsMembers(cx, cy, r, 0, Point(cx + r - 1, cy));
    CirclePointsMembers(cx, cy, r, 0, Point(cx - (r - 1), cy));
    CirclePointsMembers(cx, cy, r, 0, Point(cx, cy + r - 1));
    CirclePointsMembers(cx, cy, r, 0, Point(cx, cy - (r - 1)));
  }
}
