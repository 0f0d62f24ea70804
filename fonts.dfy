/** PIF_Font: glyph packing by PIF_fontNew and the "PIFF" file format of
    PIF_fontRead and PIF_fontWrite. */
module Fonts {
  import opened Bytes
  import opened Grid
  import opened Codec

  /** PIF_FontCharInfo: where a glyph sits on the sheet, and its width. */
  datatype CharInfo = CharInfo(x: uint8, y: uint8, w: uint8)

  /** PIF_Font. The sheet is held as its contents; `scale` is the float
      scale factor, which no operation here changes from 1. */
  datatype Font = Font(chInfo: seq<CharInfo>, chHeight: uint8, sheet: Bitmap,
                       chSpacing: uint8, lineSpacing: uint8, scale: real)

  /** The number of glyphs: one per byte value. */
  const Glyphs: nat := 256

  /** PIF_FONT_MAGIC, "PIFF". */
  const FontMagic: seq<uint8> := [0x50, 0x49, 0x46, 0x46]

  /** Storing an int into a uint8_t field keeps it modulo 256. */
  function Wrap8(v: int): (b: uint8)
    ensures 0 <= v < 256 ==> b == v
  {
    v % 256
  }

  /** The packing cursor. */
  datatype Pen = Pen(x: int, y: int)

  /** The cursor after glyphs 0 .. i - 1 have been placed: a glyph that
      would pass the sheet's right edge starts a new row chHeight lower. */
  function Cursor(ws: seq<uint8>, sheetW: int, chHeight: int, i: nat): Pen
    requires i <= |ws|
    decreases i
  {
    if i == 0 then Pen(0, 0)
    else
      var c := Cursor(ws, sheetW, chHeight, i - 1);
      var w := ws[i - 1] as int;
      if c.x + w > sheetW then Pen(w, c.y + chHeight) else Pen(c.x + w, c.y)
  }

  /** Where glyph i is placed, before the uint8 truncation. */
  function Place(ws: seq<uint8>, sheetW: int, chHeight: int, i: nat): Pen
    requires i < |ws|
  {
    var c := Cursor(ws, sheetW, chHeight, i);
    if c.x + ws[i] as int > sheetW then Pen(0, c.y + chHeight) else c
  }

  /** Glyph i's entry: its position truncated to bytes, and its width. */
  function GlyphInfo(ws: seq<uint8>, sheetW: int, chHeight: int, i: nat): CharInfo
    requires i < |ws|
  {
    var p := Place(ws, sheetW, chHeight, i);
    CharInfo(Wrap8(p.x), Wrap8(p.y), ws[i])
  }

  /** The font PIF_fontNew builds: each glyph's truncated position and its
      width, the height truncated to a byte, scale 1. */
  function Layout(chHeight: int, ws: seq<uint8>, sheet: Bitmap, chSpacing: uint8, lineSpacing: uint8): Font
    requires |ws| == Glyphs
  {
    Font(seq(Glyphs, i requires 0 <= i < Glyphs => GlyphInfo(ws, sheet.w, chHeight, i)),
         Wrap8(chHeight), sheet, chSpacing, lineSpacing, 1.0)
  }

  /** The cursor never moves left of the sheet. */
  lemma {:induction false} CursorNonNegative(ws: seq<uint8>, sheetW: int, chHeight: int, i: nat)
    requires i <= |ws|
    ensures Cursor(ws, sheetW, chHeight, i).x >= 0
    decreases i
  {
    if i > 0 {
      CursorNonNegative(ws, sheetW, chHeight, i - 1);
    }
  }

  /** A glyph no wider than the sheet lies inside it horizontally. */
  lemma PlaceFits(ws: seq<uint8>, sheetW: int, chHeight: int, i: nat)
    requires i < |ws| && ws[i] as int <= sheetW
    ensures var p := Place(ws, sheetW, chHeight, i);
      0 <= p.x && p.x + ws[i] as int <= sheetW
  {
    CursorNonNegative(ws, sheetW, chHeight, i);
  }

  /** Consecutive glyphs: the next one follows on the same row, or it
      starts the next row, chHeight lower, at the left edge. */
  lemma PlaceNext(ws: seq<uint8>, sheetW: int, chHeight: int, i: nat)
    requires i + 1 < |ws|
    ensures var p, q := Place(ws, sheetW, chHeight, i), Place(ws, sheetW, chHeight, i + 1);
      (q == Pen(p.x + ws[i] as int, p.y) && p.x + ws[i] as int + ws[i + 1] as int <= sheetW) ||
      (q == Pen(0, p.y + chHeight) && p.x + ws[i] as int + ws[i + 1] as int > sheetW)
  {
  }

  /** The top of the k-th row of glyphs on the sheet. */
  function RowTop(chHeight: int, k: nat): int
  {
    k * chHeight
  }

  /** The cursor starts at y = 0 and only ever moves down by chHeight, at
      most once per glyph, so it is always at the top of some row. */
  lemma {:induction false} CursorRowMultiple(ws: seq<uint8>, sheetW: int, chHeight: int, i: nat)
    requires i <= |ws|
    ensures exists k: nat :: k <= i && Cursor(ws, sheetW, chHeight, i).y == RowTop(chHeight, k)
    decreases i
  {
    if i == 0 {
      assert Cursor(ws, sheetW, chHeight, 0).y == RowTop(chHeight, 0);
    } else {
      CursorRowMultiple(ws, sheetW, chHeight, i - 1);
      var k: nat :| k <= i - 1 && Cursor(ws, sheetW, chHeight, i - 1).y == RowTop(chHeight, k);
      if Cursor(ws, sheetW, chHeight, i).y == Cursor(ws, sheetW, chHeight, i - 1).y {
        assert Cursor(ws, sheetW, chHeight, i).y == RowTop(chHeight, k);
      } else {
        assert Cursor(ws, sheetW, chHeight, i).y == RowTop(chHeight, k + 1);
      }
    }
  }

  /** Every glyph is placed at the top of a row: y is a multiple of
      chHeight, with at most one new row per glyph. */
  lemma PlaceRowMultiple(ws: seq<uint8>, sheetW: int, chHeight: int, i: nat)
    requires i < |ws|
    ensures exists k: nat :: k <= i + 1 && Place(ws, sheetW, chHeight, i).y == RowTop(chHeight, k)
  {
    CursorRowMultiple(ws, sheetW, chHeight, i);
    var k: nat :| k <= i && Cursor(ws, sheetW, chHeight, i).y == RowTop(chHeight, k);
    if Place(ws, sheetW, chHeight, i).y == Cursor(ws, sheetW, chHeight, i).y {
      assert Place(ws, sheetW, chHeight, i).y == RowTop(chHeight, k);
    } else {
      assert Place(ws, sheetW, chHeight, i).y == RowTop(chHeight, k + 1);
    }
  }

  /** With a non-negative height, rows only go down. */
  lemma {:induction false} PlaceRowsDescend(ws: seq<uint8>, sheetW: int, chHeight: int, i: nat, j: nat)
    requires chHeight >= 0 && i <= j < |ws|
    ensures Place(ws, sheetW, chHeight, i).y <= Place(ws, sheetW, chHeight, j).y
    decreases j - i
  {
    if i < j {
      PlaceRowsDescend(ws, sheetW, chHeight, i, j - 1);
      PlaceNext(ws, sheetW, chHeight, j - 1);
    }
  }

  /** While the row does not change, the cursor stays right of every glyph
      already placed on it. */
  lemma {:induction false} CursorPastRow(ws: seq<uint8>, sheetW: int, chHeight: int, i: nat, k: nat)
    requires chHeight > 0 && i < k <= |ws|
    requires Cursor(ws, sheetW, chHeight, k).y == Place(ws, sheetW, chHeight, i).y
    ensures Place(ws, sheetW, chHeight, i).x + ws[i] as int <= Cursor(ws, sheetW, chHeight, k).x
    decreases k - i
  {
    if k > i + 1 {
      var c := Cursor(ws, sheetW, chHeight, k - 1);
      CursorRowsDescend(ws, sheetW, chHeight, i + 1, k - 1);
      CursorRowsDescend(ws, sheetW, chHeight, k - 1, k);
      if c.y == Place(ws, sheetW, chHeight, i).y {
        CursorPastRow(ws, sheetW, chHeight, i, k - 1);
      }
    }
  }

  /** With a non-negative height, the cursor's row only goes down; glyph
      i + 1's cursor is at or below glyph i's placement. */
  lemma {:induction false} CursorRowsDescend(ws: seq<uint8>, sheetW: int, chHeight: int, i: nat, j: nat)
    requires chHeight >= 0 && i <= j <= |ws|
    ensures Cursor(ws, sheetW, chHeight, i).y <= Cursor(ws, sheetW, chHeight, j).y
    ensures 0 < i ==> Place(ws, sheetW, chHeight, i - 1).y == Cursor(ws, sheetW, chHeight, i).y
    decreases j - i
  {
    if i < j {
      CursorRowsDescend(ws, sheetW, chHeight, i, j - 1);
    }
  }

  /** Glyphs on one row do not overlap: a later glyph on the same row
      starts where an earlier one ends or further right. */
  lemma PlaceNoOverlap(ws: seq<uint8>, sheetW: int, chHeight: int, i: nat, j: nat)
    requires chHeight > 0 && i < j < |ws|
    requires Place(ws, sheetW, chHeight, i).y == Place(ws, sheetW, chHeight, j).y
    ensures Place(ws, sheetW, chHeight, i).x + ws[i] as int <= Place(ws, sheetW, chHeight, j).x
  {
    var c := Cursor(ws, sheetW, chHeight, j);
    CursorRowsDescend(ws, sheetW, chHeight, i + 1, j);
    if c.x + ws[j] as int > sheetW {
      assert false;
    }
    CursorPastRow(ws, sheetW, chHeight, i, j);
  }

  /** The layout keeps the widths it was given, in order. */
  lemma LayoutWidths(chHeight: int, ws: seq<uint8>, sheet: Bitmap, chSpacing: uint8, lineSpacing: uint8)
    requires |ws| == Glyphs
    ensures Widths(Layout(chHeight, ws, sheet, chSpacing, lineSpacing)) == ws
  {
  }

  /** PIF_fontNew as the source performs it: one pass over the 256 widths
      with a running cursor. The source asserts that the widths and the sheet
      are given. */
  method FontNew(chHeight: int, chWidths: seq<uint8>, sheet: Bitmap, chSpacing: uint8, lineSpacing: uint8)
    returns (f: Font)
    requires |chWidths| == Glyphs
    ensures f == Layout(chHeight, chWidths, sheet, chSpacing, lineSpacing)
  {
    var info: seq<CharInfo> := seq(Glyphs, _ => CharInfo(0, 0, 0));
    var x, y := 0, 0;
    var i := 0;
    while i < Glyphs
      invariant 0 <= i <= Glyphs && |info| == Glyphs
      invariant Pen(x, y) == Cursor(chWidths, sheet.w, chHeight, i)
      invariant forall k :: 0 <= k < i ==> info[k] == GlyphInfo(chWidths, sheet.w, chHeight, k)
    {
      var w := chWidths[i] as int;
      if x + w > sheet.w {
        x := 0;
        y := y + chHeight;
      }
      assert Pen(x, y) == Place(chWidths, sheet.w, chHeight, i);
      info := info[i := CharInfo(Wrap8(x), Wrap8(y), w as uint8)];
      x := x + w;
      i := i + 1;
    }
    assert info == Layout(chHeight, chWidths, sheet, chSpacing, lineSpacing).chInfo;
    f := Font(info, Wrap8(chHeight), sheet, chSpacing, lineSpacing, 1.0);
  }

  /** The widths PIF_fontWrite stores, one per glyph. */
  function Widths(f: Font): (ws: seq<uint8>)
    requires |f.chInfo| == Glyphs
    ensures |ws| == Glyphs && forall i :: 0 <= i < Glyphs ==> ws[i] == f.chInfo[i].w
  {
    seq(Glyphs, i requires 0 <= i < Glyphs => f.chInfo[i].w)
  }

  /** A font PIF_fontWrite can store: 256 glyphs and a storable sheet. */
  ghost predicate FontStorable(f: Font)
  {
    |f.chInfo| == Glyphs && Storable(f.sheet)
  }

  /** The 263 header bytes of PIF_fontWrite: the magic, character and
      line spacing, character height and the 256 widths. */
  function FontHeader(f: Font): (s: seq<uint8>)
    requires |f.chInfo| == Glyphs
    ensures |s| == 263 && s[..4] == FontMagic && s[7..] == Widths(f)
    ensures s[4] == f.chSpacing && s[5] == f.lineSpacing && s[6] == f.chHeight
  {
    FontMagic + [f.chSpacing, f.lineSpacing, f.chHeight] + Widths(f)
  }

  /** PIF_fontWrite: the header, then the sheet as an image. */
  function EncodeFont(f: Font): seq<uint8>
    requires FontStorable(f)
  {
    FontHeader(f) + EncodeImage(f.sheet)
  }

  /** PIF_fontRead: the header fields in order, each with its own message
      when missing; the sheet's own errors are passed on; the font is
      rebuilt by the packing. */
  function DecodeFont(s: seq<uint8>): Result<Parsed<Font>>
  {
    if |s| < 4 then Err("Failed to read magic bytes")
    else if s[..4] != FontMagic then Err("File is not a PIF font")
    else if |s| < 5 then Err("Failed to read PIF font character spacing")
    else if |s| < 6 then Err("Failed to read PIF font line spacing")
    else if |s| < 7 then Err("Failed to read PIF font character height")
    else if |s| < 263 then Err("Failed to read PIF font character widths")
    else
      match DecodeImage(s[263..])
      case Err(msg) => Err(msg)
      case Ok(img) => Ok(Parsed(Layout(s[6] as int, s[7..263], img.value, s[4], s[5]), img.rest))
  }

  /** Reading a written font gives back its spacings, height, widths and
      sheet, with the positions recomputed by the packing and scale 1. */
  lemma FontRoundTrip(f: Font, rest: seq<uint8>)
    requires FontStorable(f)
    ensures DecodeFont(EncodeFont(f) + rest) ==
      Ok(Parsed(Layout(f.chHeight as int, Widths(f), f.sheet, f.chSpacing, f.lineSpacing), rest))
  {
    var s := EncodeFont(f) + rest;
    var h := FontHeader(f);
    assert s[..263] == h;
    assert s[..4] == h[..4] && s[7..263] == h[7..];
    assert s[263..] == EncodeImage(f.sheet) + rest;
    ImageRoundTrip(f.sheet, rest);
  }

  /** A font that PIF_fontNew built from a byte height reads back exactly. */
  lemma LayoutRoundTrip(chHeight: uint8, ws: seq<uint8>, sheet: Bitmap, chSpacing: uint8, lineSpacing: uint8,
                        rest: seq<uint8>)
    requires |ws| == Glyphs && Storable(sheet)
    ensures var f := Layout(chHeight as int, ws, sheet, chSpacing, lineSpacing);
      FontStorable(f) && DecodeFont(EncodeFont(f) + rest) == Ok(Parsed(f, rest))
  {
    var f := Layout(chHeight as int, ws, sheet, chSpacing, lineSpacing);
    LayoutWidths(chHeight as int, ws, sheet, chSpacing, lineSpacing);
    FontRoundTrip(f, rest);
  }

  /** Whatever the font reader accepts is a written font followed by the
      rest. */
  lemma FontDecodeEncode(s: seq<uint8>)
    requires DecodeFont(s).Ok?
    ensures var r := DecodeFont(s).value;
      FontStorable(r.value) && EncodeFont(r.value) + r.rest == s
  {
    var img := DecodeImage(s[263..]).value;
    ImageDecodeEncode(s[263..]);
    var f := DecodeFont(s).value.value;
    LayoutWidths(s[6] as int, s[7..263], img.value, s[4], s[5]);
    assert FontHeader(f) == s[..4] + [s[4], s[5], s[6]] + s[7..263];
    assert s == s[..4] + [s[4], s[5], s[6]] + s[7..263] + s[263..];
  }

  /** A cut-off header fails with the message of the first field it lacks;
      a cut-off sheet fails with the image reader's message. */
  lemma FontTruncated(f: Font, k: nat)
    requires FontStorable(f) && k < |EncodeFont(f)|
    ensures DecodeFont(EncodeFont(f)[..k]) ==
      if k < 4 then Err("Failed to read magic bytes")
      else if k == 4 then Err("Failed to read PIF font character spacing")
      else if k == 5 then Err("Failed to read PIF font line spacing")
      else if k == 6 then Err("Failed to read PIF font character height")
      else if k < 263 then Err("Failed to read PIF font character widths")
      else if k < 267 then Err("Failed to read magic bytes")
      else if k < 275 then Err("Failed to read PIF image size")
      else Err("Failed to read PIF image body")
  {
    var e := EncodeFont(f);
    var s := e[..k];
    assert e[..263] == FontHeader(f);
    if k >= 4 {
      assert s[..4] == e[..4];
    }
    if k >= 263 {
      assert s[263..] == EncodeImage(f.sheet)[..k - 263];
      ImageTruncated(f.sheet, k - 263);
    }
  }

  /** PIF_fontWrite as the source performs it: the header bytes, one byte
      per glyph width, then PIF_imageWrite of the sheet. */
  method FontWrite(f: Font) returns (out: seq<uint8>)
    requires FontStorable(f)
    ensures out == EncodeFont(f)
  {
    out := FontMagic;
    out := out + [f.chSpacing, f.lineSpacing, f.chHeight];
    var i := 0;
    while i < Glyphs
      invariant 0 <= i <= Glyphs
      invariant out == FontMagic + [f.chSpacing, f.lineSpacing, f.chHeight] + Widths(f)[..i]
    {
      assert Widths(f)[..i + 1] == Widths(f)[..i] + [f.chInfo[i].w];
      out := out + [f.chInfo[i].w];
      i := i + 1;
    }
    assert Widths(f)[..Glyphs] == Widths(f);
    out := out + EncodeImage(f.sheet);
  }

  /** PIF_fontRead as the source performs it: the header fields, the width
      table in one read, the sheet, then PIF_fontNew. */
  method FontRead(input: seq<uint8>) returns (r: Result<Parsed<Font>>)
    ensures r == DecodeFont(input)
  {
    if |input| < 4 {
      return Err("Failed to read magic bytes");
    }
    if input[..4] != FontMagic {
      return Err("File is not a PIF font");
    }
    if |input| < 5 {
      return Err("Failed to read PIF font character spacing");
    }
    var chSpacing := input[4];
    if |input| < 6 {
      return Err("Failed to read PIF font line spacing");
    }
    var lineSpacing := input[5];
    if |input| < 7 {
      return Err("Failed to read PIF font character height");
    }
    var chHeight := input[6] as int;
    if |input| < 263 {
      return Err("Failed to read PIF font character widths");
    }
    var chWidths := input[7..263];
    var sheet := DecodeImage(input[263..]);
    if sheet.Err? {
      return Err(sheet.msg);
    }
    var f := FontNew(chHeight, chWidths, sheet.value.value, chSpacing, lineSpacing);
    return Ok(Parsed(f, sheet.value.rest));
  }
}
