/** PIF_Image: a w×h buffer of palette indices with a shader hook, the
    buffer operations that change it in place, and the drawing primitives,
    each of which writes only through DrawPoint. */
module Images {
  import opened Bytes
  import opened Color
  import opened Grid
  import opened Blending
  import opened Raster
  import opened Lines
  import opened Circles
  import opened Shapes

  /** The buffer an image holds after resizing b to nw×nh: the cells of
      the overlap keep their values, every other cell is 0. */
  function Resized(b: Bitmap, nw: nat, nh: nat): (r: Bitmap)
    requires b.Valid()
    ensures r.Valid() && r.w == nw && r.h == nh
    ensures forall x, y :: InImage(nw, nh, x, y) ==>
      Cell(r.pixels, nw, nh, x, y) == if x < b.w && y < b.h then Cell(b.pixels, b.w, b.h, x, y) else 0
  {
    var r := Bitmap(nw, nh, seq(nw * nh, k requires 0 <= k < nw * nh => ResizedAt(b, nw, nh, k)));
    forall x, y | InImage(nw, nh, x, y)
      ensures Cell(r.pixels, nw, nh, x, y) == if x < b.w && y < b.h then Cell(b.pixels, b.w, b.h, x, y) else 0
    {
      IndexInRange(nw, nh, x, y);
      DivModUnique(nw * y + x, nw, y, x);
    }
    r
  }

  /** The byte at flat offset k of the resized buffer. */
  function ResizedAt(b: Bitmap, nw: nat, nh: nat, k: int): uint8
    requires b.Valid() && 0 <= k < nw * nh
  {
    assert nw > 0;
    var x, y := k % nw, k / nw;
    if x < b.w && y < b.h then Cell(b.pixels, b.w, b.h, x, y) else 0
  }

  /** The state of the resize copy loop: the overlap cells of rows above
      y and of row y left of x hold their old values, all others are 0. */
  ghost predicate ResizeDone(s: seq<uint8>, b: Bitmap, nw: nat, nh: nat, mw: int, y: int, x: int)
    requires b.Valid()
  {
    |s| == nw * nh &&
    forall x', y' :: InImage(nw, nh, x', y') ==>
      Cell(s, nw, nh, x', y') ==
        if x' < mw && (y' < y || (y' == y && x' < x)) && InImage(b.w, b.h, x', y') then Cell(b.pixels, b.w, b.h, x', y')
        else 0
  }

  lemma ResizeStart(s: seq<uint8>, b: Bitmap, nw: nat, nh: nat, mw: int)
    requires b.Valid() && s == seq(nw * nh, _ => 0)
    ensures ResizeDone(s, b, nw, nh, mw, 0, 0)
  {
  }

  lemma ResizeStep(s: seq<uint8>, b: Bitmap, nw: nat, nh: nat, mw: int, y: int, x: int)
    requires b.Valid() && ResizeDone(s, b, nw, nh, mw, y, x)
    requires 0 <= x < mw <= Min(b.w, nw) && 0 <= y < Min(b.h, nh)
    ensures 0 <= nw * y + x < |s|
    ensures ResizeDone(s[nw * y + x := Cell(b.pixels, b.w, b.h, x, y)], b, nw, nh, mw, y, x + 1)
  {
    CellUpdate(s, nw, nh, x, y, Cell(b.pixels, b.w, b.h, x, y));
  }

  lemma ResizeRowDone(s: seq<uint8>, b: Bitmap, nw: nat, nh: nat, mw: int, y: int)
    requires b.Valid() && ResizeDone(s, b, nw, nh, mw, y, mw)
    ensures ResizeDone(s, b, nw, nh, mw, y + 1, 0)
  {
  }

  lemma ResizeFinish(s: seq<uint8>, b: Bitmap, nw: nat, nh: nat)
    requires b.Valid() && ResizeDone(s, b, nw, nh, Min(b.w, nw), Min(b.h, nh), 0)
    ensures s == Resized(b, nw, nh).pixels
  {
    CellsDetermine(s, Resized(b, nw, nh).pixels, nw, nh);
  }

  /** Resizing to the same size changes nothing. */
  lemma ResizedSame(b: Bitmap)
    requires b.Valid()
    ensures Resized(b, b.w, b.h) == b
  {
    CellsDetermine(Resized(b, b.w, b.h).pixels, b.pixels, b.w, b.h);
  }

  /** Growing an image and shrinking it back restores it. */
  lemma ResizedGrowShrink(b: Bitmap, nw: nat, nh: nat)
    requires b.Valid() && b.w <= nw && b.h <= nh
    ensures Resized(Resized(b, nw, nh), b.w, b.h) == b
  {
    CellsDetermine(Resized(Resized(b, nw, nh), b.w, b.h).pixels, b.pixels, b.w, b.h);
  }

  /** The buffer convertPalette produces: every pixel p replaced by the
      entry of `to` closest to entry p of `from`. */
  function Converted(s: seq<uint8>, from: Palette, to: Palette): (r: seq<uint8>)
    requires to.Size() <= Colors
    requires forall k :: 0 <= k < |s| ==> s[k] < |from.colors|
    ensures |r| == |s|
    ensures forall k :: 0 <= k < |s| ==> IsClosest(to, from.colors[s[k]], r[k])
  {
    var r := seq(|s|, k requires 0 <= k < |s| && s[k] < from.Size() => Closest(to, from.colors[s[k]]));
    forall k | 0 <= k < |s|
      ensures IsClosest(to, from.colors[s[k]], r[k])
    {
      ClosestIsClosest(to, from.colors[s[k]]);
    }
    r
  }

  /** Converting to the palette the image is already in keeps every
      non-sentinel pixel whose colour appears first at its own index. */
  lemma ConvertedToSelf(s: seq<uint8>, p: Palette, k: int)
    requires p.Size() <= Colors
    requires forall j :: 0 <= j < |s| ==> s[j] < |p.colors|
    requires 0 <= k < |s| && s[k] != Transparent
    requires forall j :: 1 <= j < s[k] ==> p.colors[j] != p.colors[s[k]]
    ensures Converted(s, p, p)[k] == s[k]
  {
    ClosestFindsExactMatch(p, p.colors[s[k]], s[k]);
  }

  /** The sentinel is converted like any other index: with two or more
      entries in `to`, a transparent pixel becomes a visible one. */
  lemma ConvertedSentinel(s: seq<uint8>, from: Palette, to: Palette, k: int)
    requires to.Size() <= Colors && 2 <= to.Size()
    requires forall j :: 0 <= j < |s| ==> s[j] < |from.colors|
    requires 0 <= k < |s|
    ensures Converted(s, from, to)[k] != Transparent
  {
    ClosestIsTransparentIff(to, from.colors[s[k]]);
  }

  /** The buffer after the rows ylo to yhi - 1 of PIF_imageFillRect's
      scan, one row at a time. */
  ghost function FilledRows(w: int, h: int, shader: Shader, s: seq<uint8>,
                            xlo: int, xhi: int, ylo: int, yhi: int, c: uint8): (r: seq<uint8>)
    requires |s| == w * h && ShaderReady(shader, s, c)
    ensures |r| == |s| && ShaderReady(shader, r, c)
    decreases yhi - ylo
  {
    if ylo >= yhi then s
    else PlotAll(w, h, shader, FilledRows(w, h, shader, s, xlo, xhi, ylo, yhi - 1, c), Row(xlo, xhi, yhi - 1), c)
  }

  /** Row by row is the same as drawing all rows' points in order. */
  lemma {:induction false} FilledRowsPlot(w: int, h: int, shader: Shader, s: seq<uint8>,
                                          xlo: int, xhi: int, ylo: int, yhi: int, c: uint8)
    requires |s| == w * h && ShaderReady(shader, s, c)
    ensures FilledRows(w, h, shader, s, xlo, xhi, ylo, yhi, c) == PlotAll(w, h, shader, s, Rows(xlo, xhi, ylo, yhi), c)
    decreases yhi - ylo
  {
    if ylo < yhi {
      FilledRowsPlot(w, h, shader, s, xlo, xhi, ylo, yhi - 1, c);
      PlotAllAppend(w, h, shader, s, Rows(xlo, xhi, ylo, yhi - 1), Row(xlo, xhi, yhi - 1), c);
    }
  }

  /** The buffer after the cells of row counter y with column counters 0 to
      k - 1 of PIF_imageFillCircle's scan, one cell at a time. */
  ghost function ScannedRow(w: int, h: int, shader: Shader, t: seq<uint8>,
                            cx: int, cy: int, r: int, y: int, k: int, c: uint8): (u: seq<uint8>)
    requires |t| == w * h && ShaderReady(shader, t, c)
    ensures |u| == |t| && ShaderReady(shader, u, c)
    decreases k
  {
    if k <= 0 then t
    else PlotAll(w, h, shader, ScannedRow(w, h, shader, t, cx, cy, r, y, k - 1, c), DiskCell(cx, cy, r, w, h, y, k - 1), c)
  }

  /** Cell by cell is the same as drawing the row's points in order. */
  lemma {:induction false} ScannedRowPlot(w: int, h: int, shader: Shader, t: seq<uint8>,
                                          cx: int, cy: int, r: int, y: int, k: int, c: uint8)
    requires |t| == w * h && ShaderReady(shader, t, c)
    ensures ScannedRow(w, h, shader, t, cx, cy, r, y, k, c) == PlotAll(w, h, shader, t, DiskRow(cx, cy, r, w, h, y, k), c)
    decreases k
  {
    if k > 0 {
      var pre, cell := DiskRow(cx, cy, r, w, h, y, k - 1), DiskCell(cx, cy, r, w, h, y, k - 1);
      ScannedRowPlot(w, h, shader, t, cx, cy, r, y, k - 1, c);
      PlotAllAppend(w, h, shader, t, pre, cell, c);
    }
  }

  /** Once a column maps left of the image, so do all later ones: the scan's
      `break` leaves the buffer as the full row would. */
  lemma {:induction false} ScannedRowPastLeft(w: int, h: int, shader: Shader, t: seq<uint8>,
                                              cx: int, cy: int, r: int, y: int, x: int, k: int, c: uint8)
    requires |t| == w * h && ShaderReady(shader, t, c)
    requires x <= k && cx + r - x < 0
    ensures ScannedRow(w, h, shader, t, cx, cy, r, y, k, c) == ScannedRow(w, h, shader, t, cx, cy, r, y, x, c)
    decreases k - x
  {
    if k > x {
      ScannedRowPastLeft(w, h, shader, t, cx, cy, r, y, x, k - 1, c);
    }
  }

  /** A row that maps above or below the image leaves the buffer alone. */
  lemma {:induction false} ScannedRowOutside(w: int, h: int, shader: Shader, t: seq<uint8>,
                                             cx: int, cy: int, r: int, y: int, k: int, c: uint8)
    requires |t| == w * h && ShaderReady(shader, t, c)
    requires !(0 <= cy + r - y < h)
    ensures ScannedRow(w, h, shader, t, cx, cy, r, y, k, c) == t
    decreases k
  {
    if k > 0 {
      ScannedRowOutside(w, h, shader, t, cx, cy, r, y, k - 1, c);
    }
  }

  /** The buffer after the row counters 0 to m - 1 of PIF_imageFillCircle's
      scan, one row at a time. */
  ghost function FilledDisk(w: int, h: int, shader: Shader, s: seq<uint8>,
                            cx: int, cy: int, r: int, m: int, c: uint8): (t: seq<uint8>)
    requires |s| == w * h && ShaderReady(shader, s, c)
    ensures |t| == |s| && ShaderReady(shader, t, c)
    decreases m
  {
    if m <= 0 then s
    else ScannedRow(w, h, shader, FilledDisk(w, h, shader, s, cx, cy, r, m - 1, c), cx, cy, r, m - 1, 2 * r, c)
  }

  /** Row by row is the same as drawing all the disk's points in order. */
  lemma {:induction false} FilledDiskPlot(w: int, h: int, shader: Shader, s: seq<uint8>,
                                          cx: int, cy: int, r: int, m: int, c: uint8)
    requires |s| == w * h && ShaderReady(shader, s, c)
    ensures FilledDisk(w, h, shader, s, cx, cy, r, m, c) == PlotAll(w, h, shader, s, DiskRows(cx, cy, r, w, h, m), c)
    decreases m
  {
    if m > 0 {
      FilledDiskPlot(w, h, shader, s, cx, cy, r, m - 1, c);
      ScannedRowPlot(w, h, shader, FilledDisk(w, h, shader, s, cx, cy, r, m - 1, c), cx, cy, r, m - 1, 2 * r, c);
      PlotAllAppend(w, h, shader, s, DiskRows(cx, cy, r, w, h, m - 1), DiskRow(cx, cy, r, w, h, m - 1, 2 * r), c);
    }
  }

  /** Once a row maps above the image, so do all later rows: the fill's
      `break` leaves the buffer as the full scan would. */
  lemma {:induction false} FilledDiskPastTop(w: int, h: int, shader: Shader, s: seq<uint8>,
                                             cx: int, cy: int, r: int, y: int, m: int, c: uint8)
    requires |s| == w * h && ShaderReady(shader, s, c)
    requires y <= m && cy + r - y < 0
    ensures FilledDisk(w, h, shader, s, cx, cy, r, m, c) == FilledDisk(w, h, shader, s, cx, cy, r, y, c)
    decreases m - y
  {
    if m > y {
      FilledDiskPastTop(w, h, shader, s, cx, cy, r, y, m - 1, c);
      ScannedRowOutside(w, h, shader, FilledDisk(w, h, shader, s, cx, cy, r, m - 1, c), cx, cy, r, m - 1, 2 * r, c);
    }
  }

  method LineEnds(x1: int, y1: int, x2: int, y2: int) returns (swap: bool, a1: int, b1: int, a2: int, b2: int)
    ensures LineSetup(swap, a1, b1, a2, b2) == Setup(x1, y1, x2, y2)
  {
    swap := Abs(y2 - y1) > Abs(x2 - x1);
    a1, b1, a2, b2 := x1, y1, x2, y2;
    if swap {
      a1, b1 := Swap(a1, b1);
      a2, b2 := Swap(a2, b2);
    }
    if a1 > a2 {
      a1, a2 := Swap(a1, a2);
      b1, b2 := Swap(b1, b2);
    }
  }

  class Image {
    var w: int
    var h: int
    var size: int
    var buf: array<uint8>
    var shader: Shader

    /** The layout of PIF_Image: size == w*h bytes of row-major buffer. */
    ghost predicate Valid()
      reads this
    {
      0 <= w && 0 <= h && size == w * h && buf.Length == size
    }

    /** The image's contents as a value. */
    function Snapshot(): (b: Bitmap)
      requires Valid()
      reads this, buf
      ensures b.Valid() && b.w == w && b.h == h && b.pixels == buf[..]
    {
      Bitmap(w, h, buf[..])
    }

    /** PIF_imageNew: a zeroed w×h image with no shader. */
    constructor (w: nat, h: nat)
      ensures Valid() && this.w == w && this.h == h && fresh(buf)
      ensures buf[..] == seq(w * h, _ => 0) && shader == NoShader
    {
      this.w := w;
      this.h := h;
      size := w * h;
      buf := new uint8[w * h](_ => 0);
      shader := NoShader;
    }

    /** PIF_imageAt: the offset of (x, y), or none outside the image; the
        only bounds check of the library. */
    function At(x: int, y: int): (r: Option<int>)
      requires Valid()
      reads this
      ensures r.Some? <==> InImage(w, h, x, y)
      ensures r.Some? ==> 0 <= r.value < size && r.value == w * y + x
    {
      if x < 0 || x >= w || y < 0 || y >= h then None
      else
        IndexInRange(w, h, x, y);
        Some(w * y + x)
    }

    /** PIF_imageSetShader; the data pointer is part of the shader value. */
    method SetShader(s: Shader)
      requires Valid()
      modifies this
      ensures Valid() && shader == s
      ensures w == old(w) && h == old(h) && size == old(size) && buf == old(buf)
    {
      shader := s;
    }

    /** PIF_imageDrawPoint: the sentinel colour and off-image points are
        dropped; otherwise the pixel is set, or handed to the shader. */
    method DrawPoint(x: int, y: int, c: uint8)
      requires Valid() && ShaderReady(shader, buf[..], c)
      modifies buf
      ensures buf[..] == Plot(w, h, shader, old(buf[..]), Point(x, y), c)
    {
      if c == Transparent {
        return;
      }
      var at := At(x, y);
      if at.None? {
        return;
      }
      var k := at.value;
      match shader {
        case NoShader =>
          buf[k] := c;
        case Blend(cm) =>
          assert PixelAt(buf[..], k) == buf[k];
          buf[k] := BlendColor(buf[k], c, cm);
        case Custom(apply) =>
          buf[k] := apply(x, y, buf[k], c);
      }
    }

    /** PIF_imageClear: every byte becomes the colour. */
    method Clear(c: uint8)
      requires Valid()
      modifies buf
      ensures buf[..] == seq(size, _ => c)
    {
      forall i | 0 <= i < buf.Length {
        buf[i] := c;
      }
    }

    /** PIF_imageResize: a new zeroed nw×nh buffer, then the overlap of the
        old and new sizes copied row by row. The shader is kept. */
    method Resize(nw: nat, nh: nat)
      requires Valid()
      modifies this
      ensures Valid() && fresh(buf)
      ensures Snapshot() == Resized(old(Snapshot()), nw, nh)
      ensures shader == old(shader)
    {
      ghost var before := Snapshot();
      var prevBuf := buf;
      var prevW, prevH := w, h;
      w, h, size := nw, nh, nw * nh;
      buf := new uint8[nw * nh](_ => 0);
      var mw, mh := Min(prevW, nw), Min(prevH, nh);
      ResizeStart(buf[..], before, nw, nh, mw);
      var y := 0;
      while y < mh
        invariant 0 <= y <= mh && Valid() && fresh(buf)
        invariant w == nw && h == nh && prevBuf[..] == before.pixels && shader == old(shader)
        invariant ResizeDone(buf[..], before, nw, nh, mw, y, 0)
      {
        CopyRow(prevBuf, prevW, before, mw, y);
        ResizeRowDone(buf[..], before, nw, nh, mw, y);
        y := y + 1;
      }
      ResizeFinish(buf[..], before, nw, nh);
    }

    /** One row of PIF_imageResize's copy: the first mw bytes of row y of
        the old contents go to the same places in the new buffer. */
    method CopyRow(prevBuf: array<uint8>, prevW: nat, ghost before: Bitmap, mw: int, y: int)
      requires Valid() && prevBuf != buf && before.Valid() && prevBuf[..] == before.pixels && prevW == before.w
      requires 0 <= mw <= Min(before.w, w) && 0 <= y < Min(before.h, h)
      requires ResizeDone(buf[..], before, w, h, mw, y, 0)
      modifies buf
      ensures ResizeDone(buf[..], before, w, h, mw, y, mw)
    {
      var x := 0;
      while x < mw
        invariant 0 <= x <= mw
        invariant ResizeDone(buf[..], before, w, h, mw, y, x) && prevBuf[..] == before.pixels
      {
        IndexInRange(before.w, before.h, x, y);
        var v := prevBuf[prevW * y + x];
        ResizeStep(buf[..], before, w, h, mw, y, x);
        buf[At(x, y).value] := v;
        x := x + 1;
      }
    }

    /** PIF_imageCopy: take the source's size and bytes, keep the shader. */
    method Copy(from: Image)
      requires Valid() && from.Valid()
      modifies this
      ensures Valid() && fresh(buf)
      ensures w == old(from.w) && h == old(from.h) && buf[..] == old(from.buf[..])
      ensures shader == old(shader)
    {
      var nw, nh := from.w, from.h;
      var src := from.buf;
      var nb := new uint8[nw * nh];
      forall i | 0 <= i < nb.Length {
        nb[i] := src[i];
      }
      w, h, size, buf := nw, nh, nw * nh, nb;
    }

    /** PIF_imageDup: a new image with the same fields and a copy of the bytes. */
    method Dup() returns (d: Image)
      requires Valid()
      ensures fresh(d) && fresh(d.buf) && d.Valid()
      ensures d.Snapshot() == Snapshot() && d.shader == shader
    {
      d := new Image(w, h);
      var nb := d.buf;
      forall i | 0 <= i < nb.Length {
        nb[i] := buf[i];
      }
      d.shader := shader;
    }

    /** PIF_imageConvertPalette: every pixel, in row-major order, replaced by
        PIF_paletteClosest(to, from.map[pixel]). Pixels must index `from`. */
    method ConvertPalette(from: Palette, to: Palette)
      requires Valid() && to.Size() <= Colors
      requires forall k :: 0 <= k < buf.Length ==> buf[k] < |from.colors|
      modifies buf
      ensures buf[..] == Converted(old(buf[..]), from, to)
    {
      ghost var orig := buf[..];
      ghost var want := Converted(orig, from, to);
      var y := 0;
      while y < h
        invariant 0 <= y <= h
        invariant forall k :: 0 <= k < buf.Length ==> buf[k] == if k < w * y then want[k] else orig[k]
      {
        var x := 0;
        while x < w
          invariant 0 <= x <= w
          invariant forall k :: 0 <= k < buf.Length ==> buf[k] == if k < w * y + x then want[k] else orig[k]
        {
          var k := At(x, y).value;
          var c := PaletteClosest(to, from.colors[buf[k]]);
          buf[k] := c;
          x := x + 1;
        }
        assert w * y + w == w * (y + 1);
        y := y + 1;
      }
      assert w * h == buf.Length;
    }

    /** PIF_imageDrawLine: Bresenham's walk along the major axis with an
        integer error term; with n > 0 the draw flag flips every n steps,
        starting with a flip at step 0. */
    method DrawLine(x1: int, y1: int, x2: int, y2: int, n: int, c: uint8)
      requires Valid() && ShaderReady(shader, buf[..], c)
      modifies buf
      ensures buf[..] == PlotAll(w, h, shader, old(buf[..]), LinePoints(x1, y1, x2, y2, n), c)
    {
      ghost var s0 := buf[..];
      if c == Transparent {
        PlotAllTransparent(w, h, shader, s0, LinePoints(x1, y1, x2, y2, n));
        return;
      }
      var swap, a1, b1, a2, b2 := LineEnds(x1, y1, x2, y2);
      LinePrefixEnds(x1, y1, x2, y2, n);
      DrawTrace(swap, a1, b1, a2, b2, n, c);
    }

    /** The drawing half of one step of PIF_imageDrawLine's loop: the
        point (ax1, ay1), swapped back for a steep line, when the dash flag
        is on. */
    method DrawStep(ghost s0: seq<uint8>, ghost st: LineSetup, ghost i: nat, ghost k: int,
                    swap: bool, ax1: int, ay1: int, draw: bool, n: int, c: uint8)
      requires Valid() && |s0| == w * h && ShaderReady(shader, s0, c)
      requires st.steep == swap && st.a1 <= st.a2 && i <= st.a2 - st.a1
      requires Walk(st.a2 - st.a1, Abs(st.b2 - st.b1), i).k == k
      requires ax1 == st.a1 + i && ay1 == Minor(st.b1, st.b2, k) && draw == DashOn(i, n)
      requires buf[..] == PlotAll(w, h, shader, s0, LinePrefix(st, n, i), c)
      modifies buf
      ensures buf[..] == PlotAll(w, h, shader, s0, LinePrefix(st, n, i + 1), c)
    {
      ghost var p := Unswap(swap, ax1, ay1);
      LinePrefixStep(st, n, i, k, p);
      if draw {
        var x, y := ax1, ay1;
        if swap {
          x, y := Swap(x, y);
        }
        PlotAllSnoc(w, h, shader, s0, LinePrefix(st, n, i), p, c);
        DrawPoint(x, y, c);
      }
    }

    /** The loop of PIF_imageDrawLine, once the endpoints are ordered along
        the major axis (swapped into (y, x) form for a steep line). */
    method DrawTrace(swap: bool, a1: int, b1: int, a2: int, b2: int, n: int, c: uint8)
      requires Valid() && ShaderReady(shader, buf[..], c)
      requires a1 <= a2 && Abs(b2 - b1) <= a2 - a1
      modifies buf
      ensures buf[..] == PlotAll(w, h, shader, old(buf[..]), LinePrefix(LineSetup(swap, a1, b1, a2, b2), n, a2 - a1 + 1), c)
    {
      ghost var s0 := buf[..];
      ghost var st := LineSetup(swap, a1, b1, a2, b2);
      var ax1, ay1 := a1, b1;
      var distX := a2 - a1;
      var distY := Abs(b2 - b1);
      var err := distX / 2;
      var stepY := if b1 < b2 then 1 else -1;
      var draw := true;
      var i := 0;
      ghost var k := 0;
      while ax1 <= a2
        invariant 0 <= i <= distX + 1 && ax1 == a1 + i
        invariant Walk(distX, distY, i) == ErrState(k, err) && ay1 == Minor(b1, b2, k)
        invariant draw == (i == 0 || DashOn(i - 1, n))
        invariant buf[..] == PlotAll(w, h, shader, s0, LinePrefix(st, n, i), c)
        decreases a2 - ax1 + 1
      {
        draw := NextDraw(draw, i, n);
        DrawStep(s0, st, i, k, swap, ax1, ay1, draw, n, c);
        ay1, err, k := ErrAdvance(distX, distY, stepY, ay1, err, i, k);
        ax1 := ax1 + 1;
        i := i + 1;
      }
    }

    /** PIF_imageDrawRect: the four edges of `rect`, or of the whole image
        when none is given. */
    method DrawRect(rect: Option<Rect>, n: int, c: uint8)
      requires Valid() && ShaderReady(shader, buf[..], c)
      modifies buf
      ensures buf[..] == PlotAll(w, h, shader, old(buf[..]),
                                 RectOutline(if rect.Some? then rect.value else WholeImage(w, h), n), c)
    {
      ghost var s0 := buf[..];
      if c == Transparent {
        PlotAllTransparent(w, h, shader, s0, RectOutline(if rect.Some? then rect.value else WholeImage(w, h), n));
        return;
      }
      var r := if rect.Some? then rect.value else WholeImage(w, h);
      var s := RectSides(r);
      DrawLine(s[0].x1, s[0].y1, s[0].x2, s[0].y2, n, c);
      DrawLine(s[1].x1, s[1].y1, s[1].x2, s[1].y2, n, c);
      DrawLine(s[2].x1, s[2].y1, s[2].x2, s[2].y2, n, c);
      DrawLine(s[3].x1, s[3].y1, s[3].x2, s[3].y2, n, c);
      PlotAllAppend4(w, h, shader, s0, SegmentPoints(s[0], n), SegmentPoints(s[1], n),
                     SegmentPoints(s[2], n), SegmentPoints(s[3], n), c);
    }

    /** PIF_imageDrawCircle: the midpoint walk over one octant from
        (r - 1, 0); each iteration draws the eight reflections of its point
        unless the dash flag, flipped every n iterations, is off. */
    method DrawCircle(cx: int, cy: int, r: int, n: int, c: uint8)
      requires Valid() && ShaderReady(shader, buf[..], c)
      modifies buf
      ensures buf[..] == PlotAll(w, h, shader, old(buf[..]), CirclePoints(cx, cy, r, n), c)
    {
      ghost var s0 := buf[..];
      if c == Transparent {
        PlotAllTransparent(w, h, shader, s0, CirclePoints(cx, cy, r, n));
        return;
      }
      var x, y, dx, dy := r - 1, 0, 1, 1;
      var err := dx - 2 * r;
      var draw := true;
      var i := 0;
      ghost var done: seq<CircleState> := [];
      while x >= y
        invariant i == |done| && draw == (i == 0 || DashOn(i - 1, n))
        invariant Octant(r, CircleStart(r)) == done + Octant(r, CircleState(x, y, dx, dy, err))
        invariant buf[..] == PlotAll(w, h, shader, s0, CircleDrawn(done, cx, cy, n), c)
        decreases x - y
      {
        var cur := CircleState(x, y, dx, dy, err);
        draw := NextDraw(draw, i, n);
        DrawHead(s0, done, cur, cx, cy, draw, n, c);
        OctantNext(r, done, cur);
        x, y, dx, dy, err := CircleAdvance(r, x, y, dx, dy, err);
        done := done + [cur];
        i := i + 1;
      }
      assert done + [] == done;
    }

    /** The drawing half of one midpoint iteration: the eight points of the
        head `cur` when its dash flag is on. */
    method DrawHead(ghost s0: seq<uint8>, ghost done: seq<CircleState>, cur: CircleState,
                    cx: int, cy: int, draw: bool, n: int, c: uint8)
      requires Valid() && |s0| == w * h && ShaderReady(shader, s0, c)
      requires draw == DashOn(|done|, n)
      requires buf[..] == PlotAll(w, h, shader, s0, CircleDrawn(done, cx, cy, n), c)
      modifies buf
      ensures buf[..] == PlotAll(w, h, shader, s0, CircleDrawn(done + [cur], cx, cy, n), c)
    {
      CircleDrawnSnoc(done, cur, cx, cy, n);
      if draw {
        PlotAllAppend(w, h, shader, s0, CircleDrawn(done, cx, cy, n), Eight(cx, cy, cur), c);
        DrawEight(cx, cy, cur.x, cur.y, c);
      } else {
        assert CircleDrawn(done, cx, cy, n) + [] == CircleDrawn(done, cx, cy, n);
      }
    }

    /** The eight PIF_imageDrawPoint calls of one midpoint iteration. */
    method DrawEight(cx: int, cy: int, x: int, y: int, c: uint8)
      requires Valid() && ShaderReady(shader, buf[..], c)
      modifies buf
      ensures buf[..] == PlotAll(w, h, shader, old(buf[..]), Reflections(cx, cy, x, y), c)
    {
      ghost var s0 := buf[..];
      var pts := Reflections(cx, cy, x, y);
      DrawFour(pts[..4], c);
      ghost var s4 := buf[..];
      DrawFour(pts[4..], c);
      PlotAllAppend(w, h, shader, s0, pts[..4], pts[4..], c);
      assert pts[..4] + pts[4..] == pts;
    }

    /** Four consecutive drawPoint calls of the circle's eight. */
    method DrawFour(pts: seq<Point>, c: uint8)
      requires Valid() && ShaderReady(shader, buf[..], c)
      requires |pts| == 4
      modifies buf
      ensures buf[..] == PlotAll(w, h, shader, old(buf[..]), pts, c)
    {
      ghost var s0 := buf[..];
      DrawPoint(pts[0].x, pts[0].y, c);
      PlotAllSnoc(w, h, shader, s0, pts[..0], pts[0], c);
      assert pts[..1] == pts[..0] + [pts[0]];
      DrawPoint(pts[1].x, pts[1].y, c);
      PlotAllSnoc(w, h, shader, s0, pts[..1], pts[1], c);
      assert pts[..2] == pts[..1] + [pts[1]];
      DrawPoint(pts[2].x, pts[2].y, c);
      PlotAllSnoc(w, h, shader, s0, pts[..2], pts[2], c);
      assert pts[..3] == pts[..2] + [pts[2]];
      DrawPoint(pts[3].x, pts[3].y, c);
      PlotAllSnoc(w, h, shader, s0, pts[..3], pts[3], c);
      assert pts[..4] == pts[..3] + [pts[3]];
      assert pts[..4] == pts;
    }

    /** PIF_imageFillRect: rows of `rect` (the whole image when none is
        given) top to bottom, each left to right, skipping coordinates
        below 0 and stopping at the image's far edge. */
    method FillRect(rect: Option<Rect>, c: uint8)
      requires Valid() && ShaderReady(shader, buf[..], c)
      modifies buf
      ensures buf[..] == PlotAll(w, h, shader, old(buf[..]),
                                 FillRectPoints(if rect.Some? then rect.value else WholeImage(w, h), w, h), c)
    {
      var r := if rect.Some? then rect.value else WholeImage(w, h);
      FillArea(r, c);
    }

    /** PIF_imageFillRect for a given rectangle: nothing for the sentinel,
        else the row loop. */
    method FillArea(r: Rect, c: uint8)
      requires Valid() && ShaderReady(shader, buf[..], c)
      modifies buf
      ensures buf[..] == PlotAll(w, h, shader, old(buf[..]), FillRectPoints(r, w, h), c)
    {
      ghost var s0 := buf[..];
      if c == Transparent {
        PlotAllTransparent(w, h, shader, s0, FillRectPoints(r, w, h));
        return;
      }
      FillRows(r, c);
      FilledRowsPlot(w, h, shader, s0, Max(r.x, 0), Min(r.x + r.w, w), Max(r.y, 0), Min(r.y + r.h, h), c);
    }

    /** The row loop of PIF_imageFillRect: rows above the image are
        skipped and the loop stops at the first row below it. */
    method FillRows(r: Rect, c: uint8)
      requires Valid() && ShaderReady(shader, buf[..], c)
      modifies buf
      ensures buf[..] == FilledRows(w, h, shader, old(buf[..]), Max(r.x, 0), Min(r.x + r.w, w),
                                    Max(r.y, 0), Min(r.y + r.h, h), c)
    {
      ghost var s0 := buf[..];
      ghost var xlo, xhi, ylo, yhi := Max(r.x, 0), Min(r.x + r.w, w), Max(r.y, 0), Min(r.y + r.h, h);
      ghost var m := ylo;
      var y := r.y;
      while y < r.y + r.h
        invariant r.y <= y && m == Max(ylo, Min(y, yhi))
        invariant buf[..] == FilledRows(w, h, shader, s0, xlo, xhi, ylo, m, c)
      {
        if y < 0 {
          y := y + 1;
          continue;
        }
        if y >= h {
          break;
        }
        FillRowStep(s0, r, xlo, xhi, ylo, y, c);
        m := m + 1;
        y := y + 1;
      }
      assert buf[..] == FilledRows(w, h, shader, s0, xlo, xhi, ylo, yhi, c);
    }

    /** One pass of PIF_imageFillRect's row loop for an in-image row y. */
    method FillRowStep(ghost s0: seq<uint8>, r: Rect, ghost xlo: int, ghost xhi: int, ghost ylo: int,
                       y: int, c: uint8)
      requires Valid() && |s0| == w * h && ShaderReady(shader, s0, c)
      requires xlo == Max(r.x, 0) && xhi == Min(r.x + r.w, w) && ylo <= y
      requires buf[..] == FilledRows(w, h, shader, s0, xlo, xhi, ylo, y, c)
      modifies buf
      ensures buf[..] == FilledRows(w, h, shader, s0, xlo, xhi, ylo, y + 1, c)
    {
      FillSpan(r.x, r.x + r.w, y, c);
    }

    /** The column loop of PIF_imageFillRect: row y from x0 up to x1. */
    method FillSpan(x0: int, x1: int, y: int, c: uint8)
      requires Valid() && ShaderReady(shader, buf[..], c)
      modifies buf
      ensures buf[..] == PlotAll(w, h, shader, old(buf[..]), Row(Max(x0, 0), Min(x1, w), y), c)
    {
      ghost var s0 := buf[..];
      ghost var xlo, xhi := Max(x0, 0), Min(x1, w);
      var x := x0;
      while x < x1
        invariant x0 <= x
        invariant buf[..] == PlotAll(w, h, shader, s0, Row(xlo, Min(x, xhi), y), c)
      {
        if x < 0 {
          x := x + 1;
          continue;
        }
        if x >= w {
          break;
        }
        RowSnoc(xlo, x, y);
        PlotAllSnoc(w, h, shader, s0, Row(xlo, x, y), Point(x, y), c);
        DrawPoint(x, y, c);
        x := x + 1;
      }
    }

    /** PIF_imageFillCircle: counters y and x over [0, 2r) visit the cell
        (cx + r - x, cy + r - y) and draw it when it is strictly inside the
        circle; the scan stops (a row, or the whole fill) once it has left
        the image on the left (or at the top), and skips rows below the
        image and cells right of it. */
    method FillCircle(cx: int, cy: int, r: int, c: uint8)
      requires Valid() && ShaderReady(shader, buf[..], c)
      modifies buf
      ensures buf[..] == PlotAll(w, h, shader, old(buf[..]), DiskPoints(cx, cy, r, w, h), c)
    {
      ghost var s0 := buf[..];
      if c == Transparent {
        PlotAllTransparent(w, h, shader, s0, DiskPoints(cx, cy, r, w, h));
        return;
      }
      DiskScanRows(cx, cy, r, c);
      FilledDiskPlot(w, h, shader, s0, cx, cy, r, 2 * r, c);
    }

    /** The outer loop of PIF_imageFillCircle: row counters 0 to 2r - 1. */
    method DiskScanRows(cx: int, cy: int, r: int, c: uint8)
      requires Valid() && ShaderReady(shader, buf[..], c)
      modifies buf
      ensures buf[..] == FilledDisk(w, h, shader, old(buf[..]), cx, cy, r, 2 * r, c)
    {
      ghost var s0 := buf[..];
      var d := r * 2;
      var y := 0;
      while y < d
        invariant 0 <= y && (y <= d || y == 0)
        invariant buf[..] == FilledDisk(w, h, shader, s0, cx, cy, r, y, c)
      {
        var destY := cy + (r - y);
        if destY < 0 {
          FilledDiskPastTop(w, h, shader, s0, cx, cy, r, y, d, c);
          break;
        }
        DiskRowStep(s0, cx, cy, r, y, c);
        y := y + 1;
      }
      assert buf[..] == FilledDisk(w, h, shader, s0, cx, cy, r, d, c);
    }

    /** One pass of PIF_imageFillCircle's outer loop for a row that is not
        above the image: a row below it is skipped, any other is scanned. */
    method DiskRowStep(ghost s0: seq<uint8>, cx: int, cy: int, r: int, y: int, c: uint8)
      requires Valid() && |s0| == w * h && ShaderReady(shader, s0, c)
      requires buf[..] == FilledDisk(w, h, shader, s0, cx, cy, r, y, c)
      requires 0 <= y && 0 <= cy + (r - y)
      modifies buf
      ensures buf[..] == FilledDisk(w, h, shader, s0, cx, cy, r, y + 1, c)
    {
      if cy + (r - y) >= h {
        ScannedRowOutside(w, h, shader, buf[..], cx, cy, r, y, 2 * r, c);
      } else {
        DiskScan(cx, cy, r, y, c);
      }
    }

    /** The inner loop of PIF_imageFillCircle for row counter y. */
    method DiskScan(cx: int, cy: int, r: int, y: int, c: uint8)
      requires Valid() && ShaderReady(shader, buf[..], c)
      requires 0 <= cy + (r - y) < h
      modifies buf
      ensures buf[..] == ScannedRow(w, h, shader, old(buf[..]), cx, cy, r, y, 2 * r, c)
    {
      ghost var s0 := buf[..];
      var d := r * 2;
      var rr := r * r;
      var x := 0;
      while x < d
        invariant 0 <= x && (x <= d || x == 0)
        invariant buf[..] == ScannedRow(w, h, shader, s0, cx, cy, r, y, x, c)
      {
        var dx := r - x;
        var destX := cx + dx;
        if destX < 0 {
          ScannedRowPastLeft(w, h, shader, s0, cx, cy, r, y, x, d, c);
          break;
        }
        DiskCellStep(cx, cy, r, y, x, rr, c);
        x := x + 1;
      }
    }

    /** One cell of PIF_imageFillCircle's row scan, once its column is
        known not to lie left of the image. */
    method DiskCellStep(cx: int, cy: int, r: int, y: int, x: int, rr: int, c: uint8)
      requires Valid() && ShaderReady(shader, buf[..], c)
      requires 0 <= cy + (r - y) < h && 0 <= cx + (r - x) && rr == r * r
      modifies buf
      ensures buf[..] == PlotAll(w, h, shader, old(buf[..]), DiskCell(cx, cy, r, w, h, y, x), c)
    {
      ghost var before := buf[..];
      var dx, dy := r - x, r - y;
      var destX, destY := cx + dx, cy + dy;
      if destX < w && dx * dx + dy * dy < rr {
        assert DiskCell(cx, cy, r, w, h, y, x) == [Point(destX, destY)];
        PlotAllSnoc(w, h, shader, before, [], Point(destX, destY), c);
        DrawPoint(destX, destY, c);
      } else {
        assert DiskCell(cx, cy, r, w, h, y, x) == [];
      }
    }

    /** PIF_imageDrawTriangle: the three edges in order. */
    method DrawTriangle(x1: int, y1: int, x2: int, y2: int, x3: int, y3: int, n: int, c: uint8)
      requires Valid() && ShaderReady(shader, buf[..], c)
      modifies buf
      ensures buf[..] == PlotAll(w, h, shader, old(buf[..]), TriangleOutline(x1, y1, x2, y2, x3, y3, n), c)
    {
      ghost var s0 := buf[..];
      if c == Transparent {
        PlotAllTransparent(w, h, shader, s0, TriangleOutline(x1, y1, x2, y2, x3, y3, n));
        return;
      }
      DrawLine(x1, y1, x2, y2, n, c);
      DrawLine(x2, y2, x3, y3, n, c);
      DrawLine(x3, y3, x1, y1, n, c);
      PlotAllAppend3(w, h, shader, s0, LinePoints(x1, y1, x2, y2, n), LinePoints(x2, y2, x3, y3, n),
                     LinePoints(x3, y3, x1, y1, n), c);
    }
  }
}
