/** The blend lookup of PIF_blendColor and the contents that
    PIF_paletteCreateColormap gives each colormap cell. */
module Blending {
  import opened Bytes
  import opened Color
  import opened Grid

  /** What PIF_blendColor asserts of its colormap: more rows than columns
      (rows [0, h-w) are the shade band, rows [h-w, h) the blend band). */
  ghost predicate ColormapShape(cm: Bitmap)
  {
    cm.Valid() && cm.h > cm.w
  }

  /** PIF_blendColor: the sentinel on either side yields the other operand;
      otherwise the blend-band cell at column `from`, row `to + shades`. */
  function BlendColor(from: uint8, to: uint8, cm: Bitmap): (r: uint8)
    requires ColormapShape(cm) && from < cm.w && to < cm.w
    ensures from == Transparent ==> r == to
    ensures from != Transparent && to == Transparent ==> r == from
    ensures from != Transparent && to != Transparent ==>
      r == Cell(cm.pixels, cm.w, cm.h, from, to + (cm.h - cm.w))
  {
    if from == Transparent then to
    else if to == Transparent then from
    else
      var shades := cm.h - cm.w;
      Cell(cm.pixels, cm.w, cm.h, from, to + shades)
  }

  /** The colour the shade band holds at column x, row y < shades: the
      sentinel in column 0, otherwise the palette entry nearest to the
      darkened colour. `darken` stands for the floating-point scaling by
      (shades - y) / (shades / 2) with clamping at 255. */
  function ShadeEntry(p: Palette, shades: int, darken: (Rgb, int, int) -> Rgb, x: nat, y: int): uint8
    requires x < p.Size() <= Colors
  {
    if x == Transparent as int then Transparent
    else Closest(p, darken(p.colors[x], shades, y))
  }

  /** The colour the blend band holds for the pair (from, to): the sentinel
      when either is the sentinel, otherwise the entry nearest to their
      interpolation. `lerp` stands for PIF_rgbLerp at the fixed factor t. */
  function BlendEntry(p: Palette, lerp: (Rgb, Rgb) -> Rgb, from: nat, to: nat): uint8
    requires from < p.Size() <= Colors && to < p.Size()
  {
    if from == Transparent as int || to == Transparent as int then Transparent
    else Closest(p, lerp(p.colors[from], p.colors[to]))
  }

  /** The cell at column x, row y of the colormap built from p. */
  function ColormapEntry(p: Palette, shades: nat, darken: (Rgb, int, int) -> Rgb,
                         lerp: (Rgb, Rgb) -> Rgb, x: nat, y: nat): (c: uint8)
    requires x < p.Size() <= Colors && y < p.Size() + shades
    ensures c < p.Size() || c == Transparent
  {
    if y < shades then ShadeEntry(p, shades, darken, x, y)
    else BlendEntry(p, lerp, x, y - shades)
  }
}
