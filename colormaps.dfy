/** PIF_paletteCreateColormap: the size × (size + shades) lookup image that
    PIF_blendColor reads, and what blending through it yields. */
module Colormaps {
  import opened Bytes
  import opened Color
  import opened Grid
  import opened Blending
  import opened Raster
  import opened Images

  /** The colormap built from p as a value: column x, row y holds
      ColormapEntry. */
  function Colormap(p: Palette, shades: nat, darken: (Rgb, int, int) -> Rgb,
                    lerp: (Rgb, Rgb) -> Rgb): (cm: Bitmap)
    requires p.Size() <= Colors
    ensures cm.Valid() && cm.w == p.Size() && cm.h == p.Size() + shades
  {
    var n := p.Size();
    Bitmap(n, n + shades, seq(n * (n + shades), k requires 0 <= k < n * (n + shades) =>
      IndexSurjective(n, n + shades, k);
      ColormapEntry(p, shades, darken, lerp, k % n, k / n)))
  }

  /** Every cell of the built colormap is its ColormapEntry. */
  lemma ColormapCells(p: Palette, shades: nat, darken: (Rgb, int, int) -> Rgb,
                      lerp: (Rgb, Rgb) -> Rgb, x: int, y: int)
    requires p.Size() <= Colors && InImage(p.Size(), p.Size() + shades, x, y)
    ensures Cell(Colormap(p, shades, darken, lerp).pixels, p.Size(), p.Size() + shades, x, y) ==
      ColormapEntry(p, shades, darken, lerp, x, y)
  {
    var n := p.Size();
    IndexInRange(n, n + shades, x, y);
    DivModUnique(n * y + x, n, y, x);
  }

  /** The shade-band cell at column x, row y. */
  lemma ShadeCellValue(p: Palette, shades: nat, darken: (Rgb, int, int) -> Rgb,
                       lerp: (Rgb, Rgb) -> Rgb, x: int, y: int)
    requires p.Size() <= Colors && 0 <= x < p.Size() && 0 <= y < shades
    ensures Cell(Colormap(p, shades, darken, lerp).pixels, p.Size(), p.Size() + shades, x, y) ==
      ShadeEntry(p, shades, darken, x, y)
  {
    ColormapCells(p, shades, darken, lerp, x, y);
  }

  /** The blend-band cell for the pair (x, y), at row y + shades. */
  lemma BlendCellValue(p: Palette, shades: nat, darken: (Rgb, int, int) -> Rgb,
                       lerp: (Rgb, Rgb) -> Rgb, x: int, y: int)
    requires p.Size() <= Colors && 0 <= x < p.Size() && 0 <= y < p.Size()
    ensures Cell(Colormap(p, shades, darken, lerp).pixels, p.Size(), p.Size() + shades, x, y + shades) ==
      BlendEntry(p, lerp, x, y)
  {
    ColormapCells(p, shades, darken, lerp, x, y + shades);
  }

  /** A colormap with at least one shade row has the shape PIF_blendColor
      asserts, and none without. */
  lemma ColormapShaped(p: Palette, shades: nat, darken: (Rgb, int, int) -> Rgb, lerp: (Rgb, Rgb) -> Rgb)
    requires p.Size() <= Colors
    ensures ColormapShape(Colormap(p, shades, darken, lerp)) <==> shades > 0
  {
  }

  /** Blending through the built colormap: the sentinel on either side
      gives the other colour, two other indices give the entry nearest to
      their interpolation. */
  lemma BlendThroughColormap(p: Palette, shades: nat, darken: (Rgb, int, int) -> Rgb,
                             lerp: (Rgb, Rgb) -> Rgb, from: uint8, to: uint8)
    requires p.Size() <= Colors && shades > 0 && from < p.Size() && to < p.Size()
    ensures ColormapShape(Colormap(p, shades, darken, lerp))
    ensures BlendColor(from, to, Colormap(p, shades, darken, lerp)) ==
      if from == Transparent then to
      else if to == Transparent then from
      else Closest(p, lerp(p.colors[from], p.colors[to]))
  {
    if from != Transparent && to != Transparent {
      ColormapCells(p, shades, darken, lerp, from as int, to as int + shades);
    }
  }

  /** The sentinel cells: column 0 of the shade band, and row 0 and column 0
      of the blend band; every cell is an index of the palette or the
      sentinel. */
  lemma ColormapSentinels(p: Palette, shades: nat, darken: (Rgb, int, int) -> Rgb,
                          lerp: (Rgb, Rgb) -> Rgb, x: int, y: int)
    requires p.Size() <= Colors && InImage(p.Size(), p.Size() + shades, x, y)
    ensures var c := Cell(Colormap(p, shades, darken, lerp).pixels, p.Size(), p.Size() + shades, x, y);
      (c < p.Size() || c == Transparent) &&
      (x == 0 ==> c == Transparent) &&
      (y == shades ==> c == Transparent)
  {
    ColormapCells(p, shades, darken, lerp, x, y);
  }

  /** Whether the build loops have written (x, y): in the shade phase the
      columns left of a and rows above b of column a; in the blend phase the
      whole shade band, the blend rows above a and the columns left of b of
      blend row a. */
  ghost predicate Written(shades: int, blend: bool, a: int, b: int, x: int, y: int)
  {
    if !blend then y < shades && (x < a || (x == a && y < b))
    else y < shades || y - shades < a || (y - shades == a && x < b)
  }

  /** The buffer under construction: written cells hold the target's
      value, the rest are still 0. */
  ghost predicate BuildState(s: seq<uint8>, t: seq<uint8>, w: nat, h: nat, shades: int, blend: bool, a: int, b: int)
  {
    |s| == w * h && |t| == w * h &&
    forall x, y :: InImage(w, h, x, y) ==>
      Cell(s, w, h, x, y) == if Written(shades, blend, a, b, x, y) then Cell(t, w, h, x, y) else 0
  }

  lemma BuildStart(s: seq<uint8>, t: seq<uint8>, w: nat, h: nat, shades: int)
    requires s == seq(w * h, _ => 0) && |t| == w * h
    ensures BuildState(s, t, w, h, shades, false, 0, 0)
  {
  }

  /** Writing the next cell of the current column (shade phase) or row
      (blend phase) extends the written region by that cell. */
  lemma BuildStep(s: seq<uint8>, t: seq<uint8>, w: nat, h: nat, shades: int, blend: bool,
                  a: int, b: int, x: int, y: int)
    requires BuildState(s, t, w, h, shades, blend, a, b) && InImage(w, h, x, y)
    requires if blend then x == b && y == a + shades else x == a && y == b < shades
    ensures 0 <= w * y + x < |s|
    ensures BuildState(s[w * y + x := Cell(t, w, h, x, y)], t, w, h, shades, blend, a, b + 1)
  {
    CellUpdate(s, w, h, x, y, Cell(t, w, h, x, y));
    var s' := s[w * y + x := Cell(t, w, h, x, y)];
    forall x', y' | InImage(w, h, x', y')
      ensures Cell(s', w, h, x', y') == if Written(shades, blend, a, b + 1, x', y') then Cell(t, w, h, x', y') else 0
    {
      if x' != x || y' != y {
        assert Written(shades, blend, a, b + 1, x', y') == Written(shades, blend, a, b, x', y');
      }
    }
  }

  lemma BuildNext(s: seq<uint8>, t: seq<uint8>, w: nat, h: nat, shades: int, blend: bool, a: int)
    requires BuildState(s, t, w, h, shades, blend, a, if blend then w else shades)
    ensures BuildState(s, t, w, h, shades, blend, a + 1, 0)
  {
  }

  lemma BuildSwitch(s: seq<uint8>, t: seq<uint8>, w: nat, h: nat, shades: int)
    requires BuildState(s, t, w, h, shades, false, w, 0)
    ensures BuildState(s, t, w, h, shades, true, 0, 0)
  {
  }

  lemma BuildFinish(s: seq<uint8>, t: seq<uint8>, w: nat, h: nat, shades: int)
    requires BuildState(s, t, w, h, shades, true, w, 0) && h <= w + shades
    ensures s == t
  {
    CellsDetermine(s, t, w, h);
  }

  /** Writing a shade-band cell's entry advances the shade phase. */
  lemma ShadeStep(s: seq<uint8>, p: Palette, shades: nat, darken: (Rgb, int, int) -> Rgb,
                  lerp: (Rgb, Rgb) -> Rgb, x: int, y: int, color: uint8)
    requires p.Size() <= Colors && 0 <= x < p.Size() && 0 <= y < shades
    requires BuildState(s, Colormap(p, shades, darken, lerp).pixels, p.Size(), p.Size() + shades, shades, false, x, y)
    requires color == ShadeEntry(p, shades, darken, x, y)
    ensures 0 <= p.Size() * y + x < |s|
    ensures BuildState(s[p.Size() * y + x := color], Colormap(p, shades, darken, lerp).pixels,
                       p.Size(), p.Size() + shades, shades, false, x, y + 1)
  {
    ShadeCellValue(p, shades, darken, lerp, x, y);
    BuildStep(s, Colormap(p, shades, darken, lerp).pixels, p.Size(), p.Size() + shades, shades, false, x, y, x, y);
  }

  /** Writing a blend-band cell's entry advances the blend phase. */
  lemma BlendStep(s: seq<uint8>, p: Palette, shades: nat, darken: (Rgb, int, int) -> Rgb,
                  lerp: (Rgb, Rgb) -> Rgb, x: int, y: int, color: uint8)
    requires p.Size() <= Colors && 0 <= x < p.Size() && 0 <= y < p.Size()
    requires BuildState(s, Colormap(p, shades, darken, lerp).pixels, p.Size(), p.Size() + shades, shades, true, y, x)
    requires color == BlendEntry(p, lerp, x, y)
    ensures 0 <= p.Size() * (y + shades) + x < |s|
    ensures BuildState(s[p.Size() * (y + shades) + x := color], Colormap(p, shades, darken, lerp).pixels,
                       p.Size(), p.Size() + shades, shades, true, y, x + 1)
  {
    BlendCellValue(p, shades, darken, lerp, x, y);
    BuildStep(s, Colormap(p, shades, darken, lerp).pixels, p.Size(), p.Size() + shades, shades, true, y, x, x, y + shades);
  }

  /** PIF_paletteCreateColormap: a new image of size × (size + shades)
      filled column by column in the shade band, then row by row in the
      blend band. */
  method CreateColormap(p: Palette, shades: nat, darken: (Rgb, int, int) -> Rgb,
                        lerp: (Rgb, Rgb) -> Rgb) returns (cm: Image)
    requires p.Size() <= Colors
    ensures fresh(cm) && fresh(cm.buf) && cm.Valid() && cm.shader == NoShader
    ensures cm.Snapshot() == Colormap(p, shades, darken, lerp)
  {
    ghost var target := Colormap(p, shades, darken, lerp).pixels;
    cm := new Image(p.Size(), p.Size() + shades);
    BuildStart(cm.buf[..], target, cm.w, cm.h, shades);
    var x := 0;
    while x < p.Size()
      invariant 0 <= x <= p.Size() && cm.Valid() && fresh(cm) && fresh(cm.buf) && cm.shader == NoShader
      invariant cm.w == p.Size() && cm.h == p.Size() + shades
      invariant BuildState(cm.buf[..], target, cm.w, cm.h, shades, false, x, 0)
    {
      ShadeColumn(cm, p, shades, darken, lerp, x);
      BuildNext(cm.buf[..], target, cm.w, cm.h, shades, false, x);
      x := x + 1;
    }
    BuildSwitch(cm.buf[..], target, cm.w, cm.h, shades);
    var y := 0;
    while y < p.Size()
      invariant 0 <= y <= p.Size() && cm.Valid() && fresh(cm) && fresh(cm.buf) && cm.shader == NoShader
      invariant cm.w == p.Size() && cm.h == p.Size() + shades
      invariant BuildState(cm.buf[..], target, cm.w, cm.h, shades, true, y, 0)
    {
      BlendRow(cm, p, shades, darken, lerp, y);
      BuildNext(cm.buf[..], target, cm.w, cm.h, shades, true, y);
      y := y + 1;
    }
    BuildFinish(cm.buf[..], target, cm.w, cm.h, shades);
  }

  /** The inner shade loop for column x. */
  method ShadeColumn(cm: Image, p: Palette, shades: nat, darken: (Rgb, int, int) -> Rgb,
                     lerp: (Rgb, Rgb) -> Rgb, x: int)
    requires p.Size() <= Colors && 0 <= x < p.Size()
    requires cm.Valid() && cm.w == p.Size() && cm.h == p.Size() + shades
    requires BuildState(cm.buf[..], Colormap(p, shades, darken, lerp).pixels, cm.w, cm.h, shades, false, x, 0)
    modifies cm.buf
    ensures BuildState(cm.buf[..], Colormap(p, shades, darken, lerp).pixels, cm.w, cm.h, shades, false, x, shades)
  {
    var y := 0;
    while y < shades
      invariant 0 <= y <= shades
      invariant BuildState(cm.buf[..], Colormap(p, shades, darken, lerp).pixels, cm.w, cm.h, shades, false, x, y)
    {
      ShadeCell(cm, p, shades, darken, lerp, x, y);
      y := y + 1;
    }
  }

  /** One shade-band cell: the sentinel in column 0, else the entry nearest
      to the darkened colour. */
  method ShadeCell(cm: Image, p: Palette, shades: nat, darken: (Rgb, int, int) -> Rgb,
                   lerp: (Rgb, Rgb) -> Rgb, x: int, y: int)
    requires p.Size() <= Colors && 0 <= x < p.Size() && 0 <= y < shades
    requires cm.Valid() && cm.w == p.Size() && cm.h == p.Size() + shades
    requires BuildState(cm.buf[..], Colormap(p, shades, darken, lerp).pixels, cm.w, cm.h, shades, false, x, y)
    modifies cm.buf
    ensures BuildState(cm.buf[..], Colormap(p, shades, darken, lerp).pixels, cm.w, cm.h, shades, false, x, y + 1)
  {
    var color: uint8;
    if x == Transparent as int {
      color := Transparent;
    } else {
      color := PaletteClosest(p, darken(p.colors[x], shades, y));
    }
    ShadeStep(cm.buf[..], p, shades, darken, lerp, x, y, color);
    cm.buf[cm.At(x, y).value] := color;
  }

  /** The inner blend loop for blend row y. */
  method BlendRow(cm: Image, p: Palette, shades: nat, darken: (Rgb, int, int) -> Rgb,
                  lerp: (Rgb, Rgb) -> Rgb, y: int)
    requires p.Size() <= Colors && 0 <= y < p.Size()
    requires cm.Valid() && cm.w == p.Size() && cm.h == p.Size() + shades
    requires BuildState(cm.buf[..], Colormap(p, shades, darken, lerp).pixels, cm.w, cm.h, shades, true, y, 0)
    modifies cm.buf
    ensures BuildState(cm.buf[..], Colormap(p, shades, darken, lerp).pixels, cm.w, cm.h, shades, true, y, p.Size())
  {
    var x := 0;
    while x < p.Size()
      invariant 0 <= x <= p.Size()
      invariant BuildState(cm.buf[..], Colormap(p, shades, darken, lerp).pixels, cm.w, cm.h, shades, true, y, x)
    {
      BlendCell(cm, p, shades, darken, lerp, x, y);
      x := x + 1;
    }
  }

  /** One blend-band cell: the sentinel when either index is 0, else the
      entry nearest to the interpolation of entries x and y. */
  method BlendCell(cm: Image, p: Palette, shades: nat, darken: (Rgb, int, int) -> Rgb,
                   lerp: (Rgb, Rgb) -> Rgb, x: int, y: int)
    requires p.Size() <= Colors && 0 <= x < p.Size() && 0 <= y < p.Size()
    requires cm.Valid() && cm.w == p.Size() && cm.h == p.Size() + shades
    requires BuildState(cm.buf[..], Colormap(p, shades, darken, lerp).pixels, cm.w, cm.h, shades, true, y, x)
    modifies cm.buf
    ensures BuildState(cm.buf[..], Colormap(p, shades, darken, lerp).pixels, cm.w, cm.h, shades, true, y, x + 1)
  {
    var color: uint8;
    if x == Transparent as int || y == Transparent as int {
      color := Transparent;
    } else {
      color := PaletteClosest(p, lerp(p.colors[x], p.colors[y]));
    }
    BlendStep(cm.buf[..], p, shades, darken, lerp, x, y, color);
    cm.buf[cm.At(x, y + shades).value] := color;
  }
}
