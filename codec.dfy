/** The palette ("PIFP") and image ("PIFI") file formats of PIF_paletteRead,
    PIF_paletteWrite, PIF_imageRead and PIF_imageWrite, with the byte
    stream as a sequence: a reader consumes a prefix and leaves the rest. */
module Codec {
  import opened Bytes
  import opened Color
  import opened Grid

  datatype Result<T> = Ok(value: T) | Err(msg: string)

  /** A decoded value and the bytes after it. */
  datatype Parsed<T> = Parsed(value: T, rest: seq<uint8>)

  /** PIF_PALETTE_MAGIC, "PIFP". */
  const PaletteMagic: seq<uint8> := [0x50, 0x49, 0x46, 0x50]
  /** PIF_IMAGE_MAGIC, "PIFI". */
  const ImageMagic: seq<uint8> := [0x50, 0x49, 0x46, 0x49]

  /** The palette body: r, g, b of each entry in index order. */
  function Triples(colors: seq<Rgb>): (b: seq<uint8>)
    ensures |b| == 3 * |colors|
    ensures forall i :: 0 <= i < |colors| ==>
      b[3 * i] == colors[i].r && b[3 * i + 1] == colors[i].g && b[3 * i + 2] == colors[i].b
    decreases |colors|
  {
    if colors == [] then []
    else
      var n := |colors| - 1;
      var c := colors[n];
      var pre := Triples(colors[..n]);
      assert forall i :: 0 <= i < n ==> colors[..n][i] == colors[i];
      pre + [c.r, c.g, c.b]
  }

  /** Entries read from n consecutive triples. */
  function ReadTriples(s: seq<uint8>, n: nat): (c: seq<Rgb>)
    requires 3 * n <= |s|
    ensures |c| == n
    ensures forall i :: 0 <= i < n ==> c[i] == Rgb(s[3 * i], s[3 * i + 1], s[3 * i + 2])
  {
    seq(n, i requires 0 <= i < n => Rgb(s[3 * i], s[3 * i + 1], s[3 * i + 2]))
  }

  /** Reading back a written body gives the entries. */
  lemma ReadTriplesOf(colors: seq<Rgb>, rest: seq<uint8>)
    ensures ReadTriples(Triples(colors) + rest, |colors|) == colors
  {
    var t := Triples(colors);
    var n := |colors|;
    var b := t + rest;
    var r := ReadTriples(b, n);
    forall i | 0 <= i < n
      ensures r[i] == colors[i]
    {
      assert b[3 * i] == t[3 * i] && b[3 * i + 1] == t[3 * i + 1] && b[3 * i + 2] == t[3 * i + 2];
    }
    assert r == colors;
  }

  /** Writing back the entries read from a body gives the body. */
  lemma TriplesOfRead(s: seq<uint8>, n: nat)
    requires 3 * n <= |s|
    ensures Triples(ReadTriples(s, n)) == s[..3 * n]
  {
    var b := Triples(ReadTriples(s, n));
    var c := ReadTriples(s, n);
    forall k | 0 <= k < 3 * n
      ensures b[k] == s[k]
    {
      var i, j := k / 3, k % 3;
      assert k == 3 * i + j && 0 <= i < n;
      assert c[i] == Rgb(s[3 * i], s[3 * i + 1], s[3 * i + 2]);
      assert b[3 * i] == c[i].r && b[3 * i + 1] == c[i].g && b[3 * i + 2] == c[i].b;
    }
  }

  /** PIF_paletteWrite: the magic, one byte holding size - 1 (as fputc
      stores it, modulo 256), then the body. */
  function EncodePalette(p: Palette): (b: seq<uint8>)
    ensures |b| == 5 + 3 * p.Size()
    ensures b[..4] == PaletteMagic && b[4] as int == (p.Size() - 1) % 256
  {
    PaletteMagic + [((p.Size() - 1) % 256) as uint8] + Triples(p.colors)
  }

  /** PIF_paletteRead: the magic, the largest index m, then m + 1 triples;
      each missing piece fails with its own message. */
  function DecodePalette(s: seq<uint8>): Result<Parsed<Palette>>
  {
    if |s| < 4 then Err("Failed to read magic bytes")
    else if s[..4] != PaletteMagic then Err("File is not a PIF palette")
    else if |s| < 5 then Err("Failed to read PIF palette maximum color index")
    else
      var n := s[4] as int + 1;
      if |s| < 5 + 3 * n then Err("Failed to read PIF palette body")
      else Ok(Parsed(Palette(ReadTriples(s[5..], n)), s[5 + 3 * n..]))
  }

  /** A palette of 1 to 256 entries reads back as written, and the reader
      stops right after it. */
  lemma PaletteRoundTrip(p: Palette, rest: seq<uint8>)
    requires 1 <= p.Size() <= Colors
    ensures DecodePalette(EncodePalette(p) + rest) == Ok(Parsed(p, rest))
  {
    var s := EncodePalette(p) + rest;
    assert s[..4] == PaletteMagic;
    assert s[5..] == Triples(p.colors) + rest;
    ReadTriplesOf(p.colors, rest);
    assert s[5 + 3 * p.Size()..] == rest;
  }

  /** Whatever the reader accepts is a written palette followed by the
      rest: the format has one encoding per palette. */
  lemma PaletteDecodeEncode(s: seq<uint8>)
    requires DecodePalette(s).Ok?
    ensures var r := DecodePalette(s).value;
      1 <= r.value.Size() <= Colors && EncodePalette(r.value) + r.rest == s
  {
    var n := s[4] as int + 1;
    var r := DecodePalette(s).value;
    TriplesOfRead(s[5..], n);
    assert r.value.Size() == n && r.rest == s[5 + 3 * n..];
    assert ((n - 1) % 256) as uint8 == s[4];
    assert EncodePalette(r.value) == s[..4] + [s[4]] + s[5..][..3 * n];
    assert s == s[..4] + [s[4]] + s[5..][..3 * n] + s[5 + 3 * n..];
  }

  /** A cut-off palette file fails with the message of the first piece it
      lacks. */
  lemma PaletteTruncated(p: Palette, k: nat)
    requires 1 <= p.Size() <= Colors && k < |EncodePalette(p)|
    ensures DecodePalette(EncodePalette(p)[..k]) ==
      if k < 4 then Err("Failed to read magic bytes")
      else if k == 4 then Err("Failed to read PIF palette maximum color index")
      else Err("Failed to read PIF palette body")
  {
    var s := EncodePalette(p)[..k];
    if k >= 4 {
      assert s[..4] == EncodePalette(p)[..4];
    }
    if k >= 5 {
      assert s[4] == EncodePalette(p)[4];
    }
  }

  /** An empty palette is written with the index byte 255, so reading it
      back expects 256 entries: without that many bytes after it, the body
      read fails. */
  lemma EmptyPaletteUnreadable(rest: seq<uint8>)
    requires |rest| < 3 * Colors
    ensures DecodePalette(EncodePalette(Palette([])) + rest) == Err("Failed to read PIF palette body")
  {
    var s := EncodePalette(Palette([])) + rest;
    assert s[..4] == PaletteMagic;
  }

  /** A different magic is reported as not a palette. */
  lemma PaletteWrongMagic(s: seq<uint8>)
    requires |s| >= 4 && s[..4] != PaletteMagic
    ensures DecodePalette(s) == Err("File is not a PIF palette")
  {
  }

  /** PIF_paletteWrite as the source performs it: the header, then one
      triple per entry. */
  method PaletteWrite(p: Palette) returns (out: seq<uint8>)
    ensures out == EncodePalette(p)
  {
    out := PaletteMagic;
    out := out + [((p.Size() - 1) % 256) as uint8];
    var i := 0;
    while i < p.Size()
      invariant 0 <= i <= p.Size()
      invariant out == PaletteMagic + [((p.Size() - 1) % 256) as uint8] + Triples(p.colors[..i])
    {
      var c := p.colors[i];
      assert p.colors[..i + 1][..i] == p.colors[..i];
      out := out + [c.r, c.g, c.b];
      i := i + 1;
    }
    assert p.colors[..p.Size()] == p.colors;
  }

  /** PIF_paletteRead as the source performs it: a new palette of m + 1
      black entries, filled one triple at a time. */
  method PaletteRead(input: seq<uint8>) returns (r: Result<Parsed<Palette>>)
    ensures r == DecodePalette(input)
  {
    if |input| < 4 {
      return Err("Failed to read magic bytes");
    }
    if input[..4] != PaletteMagic {
      return Err("File is not a PIF palette");
    }
    if |input| < 5 {
      return Err("Failed to read PIF palette maximum color index");
    }
    var maxColor := input[4] as int;
    var colors := PaletteNew(maxColor + 1).colors;
    var pos := 5;
    var i := 0;
    while i < |colors|
      invariant 0 <= i <= |colors| == maxColor + 1 && pos == 5 + 3 * i <= |input|
      invariant colors[..i] == ReadTriples(input[5..], i)
    {
      if |input| - pos < 3 {
        return Err("Failed to read PIF palette body");
      }
      colors := colors[i := Rgb(input[pos], input[pos + 1], input[pos + 2])];
      pos := pos + 3;
      i := i + 1;
    }
    assert colors == colors[..i];
    return Ok(Parsed(Palette(colors), input[pos..]));
  }

  /** What PIF_imageWrite can store: an image whose width and height fit
      the 32-bit header fields. */
  ghost predicate Storable(b: Bitmap)
  {
    b.Valid() && b.w < 0x1_0000_0000 && b.h < 0x1_0000_0000
  }

  /** PIF_imageWrite: the magic, w and h as 32-bit little-endian words,
      then the w*h index bytes. */
  function EncodeImage(b: Bitmap): (s: seq<uint8>)
    requires Storable(b)
    ensures |s| == 12 + b.w * b.h && s[..4] == ImageMagic && s[12..] == b.pixels
  {
    ImageMagic + U32ToBytes(b.w as uint32) + U32ToBytes(b.h as uint32) + b.pixels
  }

  /** PIF_imageRead: the magic, the two header words, then w*h bytes. */
  function DecodeImage(s: seq<uint8>): Result<Parsed<Bitmap>>
  {
    if |s| < 4 then Err("Failed to read magic bytes")
    else if s[..4] != ImageMagic then Err("File is not a PIF image")
    else if |s| < 12 then Err("Failed to read PIF image size")
    else
      DecodePixels(BytesToU32(s[4..8]) as nat, BytesToU32(s[8..12]) as nat, s[12..])
  }

  /** The body of PIF_imageRead: w * h pixel bytes after the header. */
  function DecodePixels(w: nat, h: nat, body: seq<uint8>): Result<Parsed<Bitmap>>
  {
    var size := w * h;
    if |body| < size then Err("Failed to read PIF image body")
    else Ok(Parsed(Bitmap(w, h, body[..size]), body[size..]))
  }

  /** Decoded images are well formed and storable. */
  lemma DecodedImageStorable(s: seq<uint8>)
    requires DecodeImage(s).Ok?
    ensures Storable(DecodeImage(s).value.value)
  {
  }

  /** An image reads back as written, with the same size and bytes, and
      the reader stops right after it. */
  lemma ImageRoundTrip(b: Bitmap, rest: seq<uint8>)
    requires Storable(b)
    ensures DecodeImage(EncodeImage(b) + rest) == Ok(Parsed(b, rest))
  {
    var s := EncodeImage(b) + rest;
    assert s[..4] == ImageMagic;
    assert s[4..8] == U32ToBytes(b.w as uint32);
    assert s[8..12] == U32ToBytes(b.h as uint32);
    U32RoundTrip(b.w as uint32);
    U32RoundTrip(b.h as uint32);
    var body := s[12..];
    assert body == b.pixels + rest;
    assert body[..|b.pixels|] == b.pixels && body[|b.pixels|..] == rest;
  }

  /** Whatever the image reader accepts is a written image followed by
      the rest. */
  lemma ImageDecodeEncode(s: seq<uint8>)
    requires DecodeImage(s).Ok?
    ensures var r := DecodeImage(s).value;
      Storable(r.value) && EncodeImage(r.value) + r.rest == s
  {
    var r := DecodeImage(s).value;
    BytesRoundTrip(s[4..8]);
    BytesRoundTrip(s[8..12]);
    var body := s[12..];
    assert body == r.value.pixels + r.rest;
    assert s == s[..4] + s[4..8] + s[8..12] + body;
  }

  /** A cut-off image file fails with the message of the first piece it
      lacks. */
  lemma ImageTruncated(b: Bitmap, k: nat)
    requires Storable(b) && k < |EncodeImage(b)|
    ensures DecodeImage(EncodeImage(b)[..k]) ==
      if k < 4 then Err("Failed to read magic bytes")
      else if k < 12 then Err("Failed to read PIF image size")
      else Err("Failed to read PIF image body")
  {
    var s := EncodeImage(b)[..k];
    var e := EncodeImage(b);
    if k >= 4 {
      assert s[..4] == e[..4];
    }
    if k >= 12 {
      assert s[4..8] == e[4..8] == U32ToBytes(b.w as uint32);
      assert s[8..12] == e[8..12] == U32ToBytes(b.h as uint32);
      U32RoundTrip(b.w as uint32);
      U32RoundTrip(b.h as uint32);
    }
  }

  /** A different magic is reported as not an image. */
  lemma ImageWrongMagic(s: seq<uint8>)
    requires |s| >= 4 && s[..4] != ImageMagic
    ensures DecodeImage(s) == Err("File is not a PIF image")
  {
  }
}
