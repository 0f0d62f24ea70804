/** PIF_imageDrawPoint as a function on the pixel buffer, the shader hook
    it dispatches to, and the effect of drawing a sequence of points. Every
    drawing primitive of the library is specified as such a sequence. */
module Raster {
  import opened Bytes
  import opened Color
  import opened Grid
  import opened Blending

  /** The image's shader field with its data pointer: none, the blend
      shader with the colormap it reads, or any other shader, which decides
      the stored value from the position, the old pixel and the colour. */
  datatype Shader =
    | NoShader
    | Blend(colormap: Bitmap)
    | Custom(apply: (int, int, uint8, uint8) -> uint8)

  /** What drawing `c` under `shader` onto buffer `s` needs: the blend
      shader asserts that its colormap has the right shape and that both
      the existing pixel and the colour are columns of the colormap; every
      colormap cell is a column too, so blending keeps this true. */
  ghost predicate ShaderReady(shader: Shader, s: seq<uint8>, c: uint8)
  {
    shader.Blend? ==>
      var cm := shader.colormap;
      ColormapShape(cm) && c < cm.w &&
      (forall i :: 0 <= i < |cm.pixels| ==> cm.pixels[i] < cm.w) &&
      AllBelow(s, cm.w)
  }

  /** Byte i of a buffer. The bound below is phrased on it rather than on
      s[i], so that it is only instantiated where a pixel is read for
      blending. */
  ghost function PixelAt(s: seq<uint8>, i: int): uint8
    requires 0 <= i < |s|
  {
    s[i]
  }

  /** Every byte of s is below n. */
  ghost predicate AllBelow(s: seq<uint8>, n: int)
  {
    forall i :: 0 <= i < |s| ==> PixelAt(s, i) < n
  }

  /** Overwriting one byte with a value below n keeps every byte below n. */
  lemma AllBelowUpdate(s: seq<uint8>, n: int, k: int, v: uint8)
    requires AllBelow(s, n) && 0 <= k < |s| && v < n
    ensures AllBelow(s[k := v], n)
  {
    var t := s[k := v];
    forall i | 0 <= i < |t|
      ensures PixelAt(t, i) < n
    {
      if i != k {
        assert PixelAt(s, i) == s[i];
      }
    }
  }

  /** Under the blend shader every cell of a ready buffer is a colormap
      column. */
  lemma ReadyCell(shader: Shader, s: seq<uint8>, w: int, h: int, x: int, y: int, c: uint8)
    requires |s| == w * h && ShaderReady(shader, s, c) && InImage(w, h, x, y)
    ensures shader.Blend? ==> Cell(s, w, h, x, y) < shader.colormap.w
  {
    IndexInRange(w, h, x, y);
    if shader.Blend? {
      assert PixelAt(s, w * y + x) == Cell(s, w, h, x, y);
    }
  }

  /** The value a shader stores at (x, y) when `c` is drawn on `pixel`;
      PIF_blendShader stores blendColor(pixel, c). */
  function ShadePixel(shader: Shader, x: int, y: int, pixel: uint8, c: uint8): (r: uint8)
    requires shader.Blend? ==> ColormapShape(shader.colormap) && pixel < shader.colormap.w && c < shader.colormap.w
  {
    match shader
    case NoShader => c
    case Blend(cm) => BlendColor(pixel, c, cm)
    case Custom(apply) => apply(x, y, pixel, c)
  }

  /** PIF_imageDrawPoint on a w×h buffer: nothing for the sentinel colour
      or for a point outside the image, else the shader's value at w*y + x. */
  function Plot(w: int, h: int, shader: Shader, s: seq<uint8>, p: Point, c: uint8): (r: seq<uint8>)
    requires |s| == w * h && ShaderReady(shader, s, c)
    ensures |r| == |s| && ShaderReady(shader, r, c)
  {
    if c == Transparent || !InImage(w, h, p.x, p.y) then s
    else
      IndexInRange(w, h, p.x, p.y);
      var k := w * p.y + p.x;
      assert shader.Blend? ==> PixelAt(s, k) < shader.colormap.w;
      var v := ShadePixel(shader, p.x, p.y, s[k], c);
      assert shader.Blend? ==> v < shader.colormap.w by {
        if shader.Blend? && s[k] != Transparent && c != Transparent {
          IndexInRange(shader.colormap.w, shader.colormap.h, s[k], c + (shader.colormap.h - shader.colormap.w));
        }
      }
      if shader.Blend? then AllBelowUpdate(s, shader.colormap.w, k, v); s[k := v]
      else s[k := v]
  }

  /** Drawing the points of `pts` in order. */
  function PlotAll(w: int, h: int, shader: Shader, s: seq<uint8>, pts: seq<Point>, c: uint8): (r: seq<uint8>)
    requires |s| == w * h && ShaderReady(shader, s, c)
    ensures |r| == |s| && ShaderReady(shader, r, c)
    decreases |pts|
  {
    if pts == [] then s
    else Plot(w, h, shader, PlotAll(w, h, shader, s, pts[..|pts| - 1], c), pts[|pts| - 1], c)
  }

  /** The drawPoint promises: an off-image point or the sentinel colour
      changes nothing; otherwise only the cell at (x, y) changes, to the
      shader's value (to the colour itself when there is no shader). */
  lemma PlotCells(w: int, h: int, shader: Shader, s: seq<uint8>, p: Point, c: uint8)
    requires |s| == w * h && ShaderReady(shader, s, c)
    ensures c == Transparent || !InImage(w, h, p.x, p.y) ==> Plot(w, h, shader, s, p, c) == s
    ensures InImage(w, h, p.x, p.y) && shader.Blend? ==> Cell(s, w, h, p.x, p.y) < shader.colormap.w
    ensures c != Transparent && InImage(w, h, p.x, p.y) ==>
      Cell(Plot(w, h, shader, s, p, c), w, h, p.x, p.y) == ShadePixel(shader, p.x, p.y, Cell(s, w, h, p.x, p.y), c)
    ensures forall x, y :: InImage(w, h, x, y) && (x != p.x || y != p.y) ==>
      Cell(Plot(w, h, shader, s, p, c), w, h, x, y) == Cell(s, w, h, x, y)
  {
    if InImage(w, h, p.x, p.y) {
      ReadyCell(shader, s, w, h, p.x, p.y, c);
    }
    if c != Transparent && InImage(w, h, p.x, p.y) {
      IndexInRange(w, h, p.x, p.y);
      var k := w * p.y + p.x;
      CellUpdate(s, w, h, p.x, p.y, ShadePixel(shader, p.x, p.y, s[k], c));
    }
  }

  lemma {:induction false} PlotAllAppend(w: int, h: int, shader: Shader, s: seq<uint8>, a: seq<Point>, b: seq<Point>, c: uint8)
    requires |s| == w * h && ShaderReady(shader, s, c)
    ensures PlotAll(w, h, shader, s, a + b, c) == PlotAll(w, h, shader, PlotAll(w, h, shader, s, a, c), b, c)
    decreases |b|
  {
    if b == [] {
      assert a + b == a;
    } else {
      var b' := b[..|b| - 1];
      assert (a + b)[..|a + b| - 1] == a + b';
      assert (a + b)[|a + b| - 1] == b[|b| - 1];
      PlotAllAppend(w, h, shader, s, a, b', c);
    }
  }

  /** Drawing three sequences one after the other. */
  lemma PlotAllAppend3(w: int, h: int, shader: Shader, s: seq<uint8>, a: seq<Point>, b: seq<Point>, d: seq<Point>, c: uint8)
    requires |s| == w * h && ShaderReady(shader, s, c)
    ensures PlotAll(w, h, shader, s, a + b + d, c) ==
      PlotAll(w, h, shader, PlotAll(w, h, shader, PlotAll(w, h, shader, s, a, c), b, c), d, c)
  {
    PlotAllAppend(w, h, shader, s, a, b, c);
    PlotAllAppend(w, h, shader, s, a + b, d, c);
  }

  /** Drawing four sequences one after the other. */
  lemma PlotAllAppend4(w: int, h: int, shader: Shader, s: seq<uint8>,
                       a: seq<Point>, b: seq<Point>, d: seq<Point>, e: seq<Point>, c: uint8)
    requires |s| == w * h && ShaderReady(shader, s, c)
    ensures PlotAll(w, h, shader, s, a + b + d + e, c) ==
      PlotAll(w, h, shader, PlotAll(w, h, shader, PlotAll(w, h, shader, PlotAll(w, h, shader, s, a, c), b, c), d, c), e, c)
  {
    PlotAllAppend3(w, h, shader, s, a, b, d, c);
    PlotAllAppend(w, h, shader, s, a + b + d, e, c);
  }

  /** Drawing one more point after a sequence. */
  lemma PlotAllSnoc(w: int, h: int, shader: Shader, s: seq<uint8>, pts: seq<Point>, p: Point, c: uint8)
    requires |s| == w * h && ShaderReady(shader, s, c)
    ensures PlotAll(w, h, shader, s, pts + [p], c) == Plot(w, h, shader, PlotAll(w, h, shader, s, pts, c), p, c)
  {
    assert (pts + [p])[..|pts|] == pts;
  }

  /** Drawing with the sentinel colour changes nothing. */
  lemma {:induction false} PlotAllTransparent(w: int, h: int, shader: Shader, s: seq<uint8>, pts: seq<Point>)
    requires |s| == w * h && ShaderReady(shader, s, Transparent)
    ensures PlotAll(w, h, shader, s, pts, Transparent) == s
    decreases |pts|
  {
    if pts != [] {
      PlotAllTransparent(w, h, shader, s, pts[..|pts| - 1]);
    }
  }

  /** Primitives clip: drawing points that all lie outside the image
      changes nothing, whatever the shader. */
  lemma {:induction false} PlotAllOutside(w: int, h: int, shader: Shader, s: seq<uint8>, pts: seq<Point>, c: uint8)
    requires |s| == w * h && ShaderReady(shader, s, c)
    requires forall i :: 0 <= i < |pts| ==> !InImage(w, h, pts[i].x, pts[i].y)
    ensures PlotAll(w, h, shader, s, pts, c) == s
    decreases |pts|
  {
    if pts != [] {
      PlotAllOutside(w, h, shader, s, pts[..|pts| - 1], c);
    }
  }

  /** Whatever the shader, a cell whose point is not drawn keeps its value. */
  lemma {:induction false} PlotAllUntouched(w: int, h: int, shader: Shader, s: seq<uint8>, pts: seq<Point>, c: uint8, x: int, y: int)
    requires |s| == w * h && ShaderReady(shader, s, c) && InImage(w, h, x, y)
    requires Point(x, y) !in pts
    ensures Cell(PlotAll(w, h, shader, s, pts, c), w, h, x, y) == Cell(s, w, h, x, y)
    decreases |pts|
  {
    if pts != [] {
      var front := pts[..|pts| - 1];
      assert Point(x, y) !in front by {
        assert forall i :: 0 <= i < |front| ==> front[i] == pts[i];
      }
      PlotAllUntouched(w, h, shader, s, front, c, x, y);
      PlotCells(w, h, shader, PlotAll(w, h, shader, s, front, c), pts[|pts| - 1], c);
    }
  }

  /** With no shader, exactly the drawn in-image points take the colour and
      every other cell keeps its value. */
  lemma {:induction false} PlotAllNoShader(w: int, h: int, s: seq<uint8>, pts: seq<Point>, c: uint8)
    requires |s| == w * h && c != Transparent
    ensures forall x, y :: InImage(w, h, x, y) ==>
      Cell(PlotAll(w, h, NoShader, s, pts, c), w, h, x, y) == if Point(x, y) in pts then c else Cell(s, w, h, x, y)
    decreases |pts|
  {
    if pts != [] {
      var front := pts[..|pts| - 1];
      PlotAllNoShader(w, h, s, front, c);
      PlotCells(w, h, NoShader, PlotAll(w, h, NoShader, s, front, c), pts[|pts| - 1], c);
      assert pts == front + [pts[|pts| - 1]];
      forall x, y | InImage(w, h, x, y)
        ensures (Point(x, y) in pts) == (Point(x, y) in front || Point(x, y) == pts[|pts| - 1])
      {
      }
    }
  }

  /** Whatever the shader, when no point is drawn twice, each drawn in-image
      cell holds the shader's value for its old content: a blend shader
      blends each such pixel exactly once. */
  lemma {:induction false} PlotAllOnce(w: int, h: int, shader: Shader, s: seq<uint8>, pts: seq<Point>, c: uint8, x: int, y: int)
    requires |s| == w * h && ShaderReady(shader, s, c) && InImage(w, h, x, y)
    requires NoRepeats(pts) && Point(x, y) in pts && c != Transparent
    ensures shader.Blend? ==> Cell(s, w, h, x, y) < shader.colormap.w
    ensures Cell(PlotAll(w, h, shader, s, pts, c), w, h, x, y) == ShadePixel(shader, x, y, Cell(s, w, h, x, y), c)
    decreases |pts|
  {
    ReadyCell(shader, s, w, h, x, y, c);
    var front := pts[..|pts| - 1];
    var last := pts[|pts| - 1];
    var mid := PlotAll(w, h, shader, s, front, c);
    PlotCells(w, h, shader, mid, last, c);
    if last == Point(x, y) {
      assert Point(x, y) !in front by {
        assert forall i :: 0 <= i < |front| ==> front[i] == pts[i] && i < |pts| - 1;
      }
      PlotAllUntouched(w, h, shader, s, front, c, x, y);
    } else {
      assert Point(x, y) in front by {
        var i :| 0 <= i < |pts| && pts[i] == Point(x, y);
        assert i < |pts| - 1 && front[i] == pts[i];
      }
      assert NoRepeats(front) by {
        assert forall i :: 0 <= i < |front| ==> front[i] == pts[i];
      }
      PlotAllOnce(w, h, shader, s, front, c, x, y);
    }
  }
}
