/** Colours and palettes: PIF_Rgb, PIF_Palette, the squared RGB distance,
    nearest-colour search and the 32-bit pixel packers. */
module Color {
  import opened Bytes

  /** PIF_TRANSPARENT: the reserved sentinel index. */
  const Transparent: uint8 := 0
  /** PIF_COLORS: the largest number of entries a palette may have. */
  const Colors: nat := 256

  datatype Rgb = Rgb(r: uint8, g: uint8, b: uint8)

  /** A palette is its entries in index order; its size is their number. */
  datatype Palette = Palette(colors: seq<Rgb>) {
    function Size(): nat { |colors| }
  }

  /** PIF_paletteNew: `size` entries, all black. The source asserts that
      size does not exceed PIF_COLORS. */
  function PaletteNew(size: nat): (p: Palette)
    requires size <= Colors
    ensures p.Size() == size
    ensures forall i :: 0 <= i < size ==> p.colors[i] == Rgb(0, 0, 0)
  {
    Palette(seq(size, _ => Rgb(0, 0, 0)))
  }

  /** PIF_rgbDiff: squared Euclidean distance in RGB space. */
  function RgbDiff(a: Rgb, b: Rgb): int
  {
    var dr := a.r as int - b.r;
    var dg := a.g as int - b.g;
    var db := a.b as int - b.b;
    dr * dr + dg * dg + db * db
  }

  lemma SquareNonNegative(d: int)
    ensures d * d >= 0
    ensures d * d == 0 <==> d == 0
  {
    if d < 0 {
      assert d * d == (-d) * (-d);
    }
  }

  /** The distance is non-negative, symmetric and zero exactly between
      equal colours. */
  lemma RgbDiffIsADistance(a: Rgb, b: Rgb)
    ensures RgbDiff(a, b) >= 0
    ensures RgbDiff(a, b) == RgbDiff(b, a)
    ensures RgbDiff(a, b) == 0 <==> a == b
  {
    var dr, dg, db := a.r as int - b.r, a.g as int - b.g, a.b as int - b.b;
    SquareNonNegative(dr);
    SquareNonNegative(dg);
    SquareNonNegative(db);
    assert dr * dr == (-dr) * (-dr);
    assert dg * dg == (-dg) * (-dg);
    assert db * db == (-db) * (-db);
  }

  /** What PIF_paletteClosest promises: index 0 when there is no other
      index, otherwise a non-sentinel index whose distance is minimal, with
      every earlier non-sentinel index strictly farther (ties go to the
      lowest index). */
  ghost predicate IsClosest(p: Palette, rgb: Rgb, c: int)
  {
    if p.Size() <= 1 then c == 0
    else
      1 <= c < p.Size() &&
      (forall i :: 1 <= i < p.Size() ==> RgbDiff(rgb, p.colors[c]) <= RgbDiff(rgb, p.colors[i])) &&
      (forall i :: 1 <= i < c ==> RgbDiff(rgb, p.colors[c]) < RgbDiff(rgb, p.colors[i]))
  }

  /** The index the scan has chosen after looking at indices below n. */
  function ClosestBelow(p: Palette, rgb: Rgb, n: nat): (c: nat)
    requires n <= p.Size()
    ensures c < n || c == 0
    decreases n
  {
    if n <= 1 then 0
    else
      var prev := ClosestBelow(p, rgb, n - 1);
      if prev == 0 || RgbDiff(rgb, p.colors[n - 1]) < RgbDiff(rgb, p.colors[prev]) then n - 1 else prev
  }

  /** The nearest-colour index over the whole palette. */
  function Closest(p: Palette, rgb: Rgb): (c: uint8)
    requires p.Size() <= Colors
    ensures c < p.Size() || c == 0
  {
    ClosestBelow(p, rgb, p.Size())
  }

  lemma {:induction false} ClosestBelowIsClosest(p: Palette, rgb: Rgb, n: nat)
    requires n <= p.Size()
    ensures IsClosest(Palette(p.colors[..n]), rgb, ClosestBelow(p, rgb, n))
  {
    var q := Palette(p.colors[..n]);
    if n >= 2 {
      ClosestBelowIsClosest(p, rgb, n - 1);
      var prev := ClosestBelow(p, rgb, n - 1);
      assert forall i :: 0 <= i < n - 1 ==> q.colors[i] == p.colors[i];
      if n - 1 >= 2 {
        assert 1 <= prev < n - 1;
      }
    }
  }

  /** Closest meets its specification. */
  lemma ClosestIsClosest(p: Palette, rgb: Rgb)
    requires p.Size() <= Colors
    ensures IsClosest(p, rgb, Closest(p, rgb))
  {
    ClosestBelowIsClosest(p, rgb, p.Size());
    assert p.colors[..p.Size()] == p.colors;
  }

  /** The specification determines the index: the search is deterministic. */
  lemma IsClosestUnique(p: Palette, rgb: Rgb, c1: int, c2: int)
    requires IsClosest(p, rgb, c1) && IsClosest(p, rgb, c2)
    ensures c1 == c2
  {
    if p.Size() > 1 {
      var d1, d2 := RgbDiff(rgb, p.colors[c1]), RgbDiff(rgb, p.colors[c2]);
      assert d1 == d2;
    }
  }

  /** The sentinel is returned exactly when the palette has no other entry. */
  lemma ClosestIsTransparentIff(p: Palette, rgb: Rgb)
    requires p.Size() <= Colors
    ensures Closest(p, rgb) == Transparent <==> p.Size() <= 1
  {
    ClosestIsClosest(p, rgb);
  }

  /** An exact match among the non-sentinel entries is found, first one first. */
  lemma ClosestFindsExactMatch(p: Palette, rgb: Rgb, i: nat)
    requires p.Size() <= Colors
    requires 1 <= i < p.Size() && p.colors[i] == rgb
    requires forall j :: 1 <= j < i ==> p.colors[j] != rgb
    ensures Closest(p, rgb) == i
  {
    ClosestIsClosest(p, rgb);
    var c := Closest(p, rgb);
    RgbDiffIsADistance(rgb, p.colors[i]);
    RgbDiffIsADistance(rgb, p.colors[c]);
    assert RgbDiff(rgb, p.colors[c]) == 0;
    assert p.colors[c] == rgb;
  }

  /** PIF_paletteClosest: a linear scan that skips the sentinel and keeps
      the first index of smallest distance, with -1 as "nothing yet". */
  method PaletteClosest(p: Palette, rgb: Rgb) returns (color: uint8)
    requires p.Size() <= Colors
    ensures color == Closest(p, rgb)
    ensures IsClosest(p, rgb, color)
  {
    color := 0;
    var minDiff := -1;
    var i := 0;
    while i < p.Size()
      invariant 0 <= i <= p.Size()
      invariant color == ClosestBelow(p, rgb, i)
      invariant color == 0 ==> minDiff == -1
      invariant color != 0 ==> minDiff == RgbDiff(rgb, p.colors[color])
      invariant i >= 2 ==> color != 0
    {
      if i == Transparent as int {
        assert ClosestBelow(p, rgb, 1) == 0;
        i := i + 1;
        continue;
      }
      var diff := RgbDiff(rgb, p.colors[i]);
      RgbDiffIsADistance(rgb, p.colors[color]);
      if minDiff == -1 || diff < minDiff {
        minDiff := diff;
        color := i;
      }
      i := i + 1;
    }
    ClosestIsClosest(p, rgb);
  }

  /** PIF_rgbToPixelRgba32: bytes alpha=255, b, g, r, least significant first. */
  function RgbToPixelRgba32(c: Rgb): (v: uint32)
    ensures U32ToBytes(v) == [255, c.b, c.g, c.r]
  {
    BytesRoundTrip([255, c.b, c.g, c.r]);
    BytesToU32([255, c.b, c.g, c.r])
  }

  /** PIF_rgbToPixelAbgr32: bytes r, g, b, alpha=255, least significant first. */
  function RgbToPixelAbgr32(c: Rgb): (v: uint32)
    ensures U32ToBytes(v) == [c.r, c.g, c.b, 255]
  {
    BytesRoundTrip([c.r, c.g, c.b, 255]);
    BytesToU32([c.r, c.g, c.b, 255])
  }

  /** PIF_rgbFromPixelRgba32: r, g, b from the top three bytes. */
  function RgbFromPixelRgba32(v: uint32): (c: Rgb)
    ensures c.r == v / 0x100_0000 && c.g == (v / 0x1_0000) % 0x100 && c.b == (v / 0x100) % 0x100
  {
    var b := U32ToBytes(v);
    Rgb(b[3], b[2], b[1])
  }

  /** PIF_rgbFromPixelAbgr32: r, g, b from the low three bytes. */
  function RgbFromPixelAbgr32(v: uint32): (c: Rgb)
    ensures c.r == v % 0x100 && c.g == (v / 0x100) % 0x100 && c.b == (v / 0x1_0000) % 0x100
  {
    var b := U32ToBytes(v);
    Rgb(b[0], b[1], b[2])
  }

  /** Packing and unpacking are inverse; a packed pixel is opaque. */
  lemma PixelPackRoundTrips(c: Rgb)
    ensures RgbFromPixelRgba32(RgbToPixelRgba32(c)) == c
    ensures RgbFromPixelAbgr32(RgbToPixelAbgr32(c)) == c
    ensures RgbToPixelRgba32(c) % 0x100 == 255
    ensures RgbToPixelAbgr32(c) / 0x100_0000 == 255
  {
  }

  /** Unpacking then packing restores a pixel exactly when it was opaque. */
  lemma PixelUnpackRoundTrips(v: uint32)
    ensures RgbToPixelRgba32(RgbFromPixelRgba32(v)) == v <==> v % 0x100 == 255
    ensures RgbToPixelAbgr32(RgbFromPixelAbgr32(v)) == v <==> v / 0x100_0000 == 255
  {
    var b := U32ToBytes(v);
    U32RoundTrip(v);
    var c := RgbFromPixelRgba32(v);
    if v % 0x100 == 255 {
      assert [255, c.b, c.g, c.r] == b;
    }
    var d := RgbFromPixelAbgr32(v);
    if v / 0x100_0000 == 255 {
      assert [d.r, d.g, d.b, 255] == b;
    }
  }
}
