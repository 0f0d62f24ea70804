/** Row-major pixel grids: PIF_Image's w, h and trailing buffer as a value,
    points, and the flat index w*y + x that PIF_imageAt computes. */
module Grid {
  import opened Bytes

  datatype Point = Point(x: int, y: int)

  datatype Option<T> = None | Some(value: T)

/** A point sequence that visits no point twice. */
  ghost predicate NoRepeats(pts: seq<Point>)
  {
    forall i, j :: 0 <= i < j < |pts| ==> pts[i] != pts[j]
  }

  /** Joining two repeat-free sequences with no point in common gives a
      repeat-free sequence. */
  lemma NoRepeatsConcat(a: seq<Point>, b: seq<Point>)
    requires NoRepeats(a) && NoRepeats(b)
    requires forall p :: p in a ==> p !in b
    ensures NoRepeats(a + b)
  {
    var ab := a + b;
    forall i, j | 0 <= i < j < |ab|
      ensures ab[i] != ab[j]
    {
      if i < |a| && j >= |a| {
        assert ab[i] == a[i] && ab[j] == b[j - |a|];
        assert a[i] in a && b[j - |a|] in b;
      } else if i >= |a| {
        assert ab[i] == b[i - |a|] && ab[j] == b[j - |a|];
      } else {
        assert ab[i] == a[i] && ab[j] == a[j];
      }
    }
  }

  /** The contents of an image: width, height and its w*h index bytes. */
  datatype Bitmap = Bitmap(w: nat, h: nat, pixels: seq<uint8>) {
    ghost predicate Valid() { |pixels| == w * h }
  }

  predicate InImage(w: int, h: int, x: int, y: int)
  {
    0 <= x < w && 0 <= y < h
  }

  /** w*y + x of an in-image point is a valid offset into the buffer. */
  lemma IndexInRange(w: int, h: int, x: int, y: int)
    requires InImage(w, h, x, y)
    ensures 0 <= w * y + x < w * h
  {
    MulMonotone(w, y + 1, h);
    assert w * (y + 1) == w * y + w;
  }

  /** Distinct in-image points have distinct offsets. */
  lemma IndexInjective(w: int, h: int, x1: int, y1: int, x2: int, y2: int)
    requires InImage(w, h, x1, y1) && InImage(w, h, x2, y2)
    requires w * y1 + x1 == w * y2 + x2
    ensures x1 == x2 && y1 == y2
  {
    MulStep(w, y1, y2);
    MulStep(w, y2, y1);
  }

  lemma MulStep(w: nat, a: int, b: int)
    ensures a < b ==> w * a + w <= w * b
  {
    if a < b {
      MulMonotone(w, a + 1, b);
      assert w * (a + 1) == w * a + w;
    }
  }

  /** Every offset into the buffer is the offset of one in-image point. */
  lemma IndexSurjective(w: int, h: int, k: int)
    requires w > 0 && 0 <= k < w * h
    ensures InImage(w, h, k % w, k / w) && w * (k / w) + k % w == k
  {
    if k / w >= h {
      MulMonotone(w, h, k / w);
    }
  }

  /** The byte at (x, y) of a row-major buffer of width w. */
  function Cell(s: seq<uint8>, w: int, h: int, x: int, y: int): (v: uint8)
    requires |s| == w * h && InImage(w, h, x, y)
    ensures 0 <= w * y + x < |s| && v == s[w * y + x]
  {
    IndexInRange(w, h, x, y);
    s[w * y + x]
  }

  /** Writing the byte at one point changes that point's cell and no other. */
  lemma CellUpdate(s: seq<uint8>, w: int, h: int, x: int, y: int, v: uint8)
    requires |s| == w * h && InImage(w, h, x, y)
    ensures 0 <= w * y + x < |s|
    ensures forall x', y' :: InImage(w, h, x', y') ==>
      Cell(s[w * y + x := v], w, h, x', y') == if x' == x && y' == y then v else Cell(s, w, h, x', y')
  {
    IndexInRange(w, h, x, y);
    forall x', y' | InImage(w, h, x', y')
      ensures Cell(s[w * y + x := v], w, h, x', y') == if x' == x && y' == y then v else Cell(s, w, h, x', y')
    {
      IndexInRange(w, h, x', y');
      if w * y' + x' == w * y + x {
        IndexInjective(w, h, x, y, x', y');
      }
    }
  }

  /** Two buffers of the same shape are equal when all their cells are. */
  lemma CellsDetermine(s: seq<uint8>, t: seq<uint8>, w: int, h: int)
    requires w >= 0 && |s| == w * h && |t| == w * h
    requires forall x, y :: InImage(w, h, x, y) ==> Cell(s, w, h, x, y) == Cell(t, w, h, x, y)
    ensures s == t
  {
    forall k | 0 <= k < |s|
      ensures s[k] == t[k]
    {
      assert w != 0;
      IndexSurjective(w, h, k);
      assert Cell(s, w, h, k % w, k / w) == Cell(t, w, h, k % w, k / w);
    }
  }
}
