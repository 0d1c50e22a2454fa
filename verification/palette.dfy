/** Palette extraction: one palette entry per pixel of the palette image, in
    buffer order, duplicates kept. */
module Palette {
  import opened Pixels
  import opened Colors
  import opened Surfaces

  /** Largest value of a C `int`. */
  const IntMax: int := 0x7FFF_FFFF

  /** What the caller's `*palette` and `*paletteSize` hold; a `None` palette
      is a null pointer. */
  datatype Outputs = Outputs(palette: Option<seq<Color>>, paletteSize: int)

  /** The `i`-th 32-bit word of the pixel buffer, `((Uint32*)pixels)[i]`. */
  function PixelWord(bytes: seq<Byte>, i: nat, order: ByteOrder): (w: Word)
    requires 4 * i + 4 <= |bytes|
    ensures StoreNative(w, 4, order) == bytes[4 * i .. 4 * i + 4]
  {
    assert Pow256(4) == 0x1_0000_0000;
    var word := bytes[4 * i .. 4 * i + 4];
    StoreLoadNative(word, order);
    LoadNative(word, order)
  }

  /** The pixel count fits a C `int` and the buffer holds that many 32-bit
      words, so every word the extraction reads exists. */
  predicate WordsFit(s: Surface, len: int)
  {
    0 <= s.w && 0 <= s.h && s.w * s.h <= IntMax && 4 * (s.w * s.h) <= len
  }

  /** `o` holds a palette of `w * h` entries whose `i`-th entry is the
      decoded `i`-th 32-bit word of the buffer. */
  predicate HoldsWordPalette(o: Outputs, s: Surface, bytes: seq<Byte>, order: ByteOrder)
    requires WordsFit(s, |bytes|)
  {
    o.paletteSize == s.w * s.h && o.palette.Some? && |o.palette.value| == s.w * s.h &&
    forall i :: 0 <= i < s.w * s.h ==> o.palette.value[i] == s.format.unpack(PixelWord(bytes, i, order))
  }

  /** `loadPalette`: with a null surface or a null output pointer nothing is
      written; otherwise the size becomes `w * h` and, when the allocation
      succeeds, entry `i` is the `i`-th 32-bit word of the buffer decoded
      with the surface's format. Pitch and depth are not consulted. */
  function LoadPalette(surface: Option<Surface>, bytes: seq<Byte>, outputs: Option<Outputs>,
                       allocOk: bool, order: ByteOrder): (r: Option<Outputs>)
    requires surface.Some? && outputs.Some? ==> WordsFit(surface.value, |bytes|)
    ensures surface.None? || outputs.None? ==> r == outputs
    ensures surface.Some? && outputs.Some? && allocOk ==>
      r.Some? && HoldsWordPalette(r.value, surface.value, bytes, order)
    ensures surface.Some? && outputs.Some? && !allocOk ==>
      r == Some(Outputs(None, surface.value.w * surface.value.h))
  {
    if surface.None? || outputs.None? then outputs
    else
      var s := surface.value;
      var size := s.w * s.h;
      if !allocOk then Some(Outputs(None, size))
      else Some(Outputs(Some(seq(size, i requires 0 <= i < size => s.format.unpack(PixelWord(bytes, i, order)))), size))
  }

  /** For a tightly packed 32-bit surface the `i`-th word is pixel
      `(i % w, i / w)`, so the extraction reads every pixel's colour in
      row-major order. */
  lemma {:induction false} WordIsPixelWhenTight(s: Surface, bytes: seq<Byte>, order: ByteOrder, i: int)
    requires WellFormed(s, |bytes|) && s.format.bytesPerPixel == 4 && s.pitch == 4 * s.w
    requires 0 <= i < s.w * s.h
    ensures 4 * i + 4 <= |bytes| && InImage(s, i % s.w, i / s.w)
    ensures s.format.unpack(PixelWord(bytes, i, order)) == ReadColor(bytes, s, i % s.w, i / s.w, order)
  {
    var x, y := i % s.w, i / s.w;
    DivModBounds(i, s.w);
    PixelIndexInImage(s, i);
    assert 4 * (s.w * s.h) == s.h * s.pitch;
    MulLeq(y + 1, s.h, s.w);
    assert Offset(s, x, y) == 4 * (y * s.w + x) == 4 * i;
    assert PixelBytes(bytes, s, x, y) == bytes[4 * i .. 4 * i + 4];
  }

  /** `o` holds a palette of `w * h` entries whose `i`-th entry is the
      colour of pixel `(i % w, i / w)`. */
  predicate HoldsPixelPalette(o: Outputs, s: Surface, bytes: seq<Byte>, order: ByteOrder)
    requires WellFormed(s, |bytes|)
  {
    o.paletteSize == s.w * s.h && o.palette.Some? && |o.palette.value| == s.w * s.h &&
    forall i :: 0 <= i < s.w * s.h ==>
      InImage(s, i % s.w, i / s.w) && o.palette.value[i] == ReadColor(bytes, s, i % s.w, i / s.w, order)
  }

  lemma PixelIndexInImage(s: Surface, i: int)
    requires 0 <= s.w && 0 <= s.h && 0 <= i < s.w * s.h
    ensures InImage(s, i % s.w, i / s.w)
  {
    DivModBounds(i, s.w);
    DivBelow(i, s.w, s.h);
  }

  /** Extraction that reads every pixel through the pixel accessor, honouring
      pitch and depth; otherwise as `LoadPalette`. */
  function LoadPaletteByPixel(surface: Option<Surface>, bytes: seq<Byte>, outputs: Option<Outputs>,
                              allocOk: bool, order: ByteOrder): (r: Option<Outputs>)
    requires surface.Some? && outputs.Some? ==> WellFormed(surface.value, |bytes|)
    ensures surface.None? || outputs.None? ==> r == outputs
    ensures surface.Some? && outputs.Some? && allocOk ==>
      r.Some? && HoldsPixelPalette(r.value, surface.value, bytes, order)
    ensures surface.Some? && outputs.Some? && !allocOk ==>
      r == Some(Outputs(None, surface.value.w * surface.value.h))
  {
    if surface.None? || outputs.None? then outputs
    else
      var s := surface.value;
      var size := s.w * s.h;
      if !allocOk then Some(Outputs(None, size))
      else
        var ps := seq(size, i requires 0 <= i < size =>
          PixelIndexInImage(s, i);
          ReadColor(bytes, s, i % s.w, i / s.w, order));
        assert forall i :: 0 <= i < size ==> InImage(s, i % s.w, i / s.w) by {
          forall i | 0 <= i < size {
            PixelIndexInImage(s, i);
          }
        }
        Some(Outputs(Some(ps), size))
  }

  /** On a tightly packed 32-bit surface whose pixel count fits an `int`,
      the word-indexed extraction and the pixel-by-pixel one agree, for
      every output pointer and allocation outcome. */
  lemma {:induction false} TightWordsArePixels(s: Surface, bytes: seq<Byte>, outputs: Option<Outputs>,
                                               allocOk: bool, order: ByteOrder)
    requires WellFormed(s, |bytes|) && s.format.bytesPerPixel == 4 && s.pitch == 4 * s.w
    requires s.w * s.h <= IntMax
    ensures WordsFit(s, |bytes|)
    ensures LoadPalette(Some(s), bytes, outputs, allocOk, order) == LoadPaletteByPixel(Some(s), bytes, outputs, allocOk, order)
  {
    assert 4 * (s.w * s.h) == s.h * s.pitch;
    var a := LoadPalette(Some(s), bytes, outputs, allocOk, order);
    var b := LoadPaletteByPixel(Some(s), bytes, outputs, allocOk, order);
    if outputs.Some? && allocOk {
      var pa, pb := a.value.palette.value, b.value.palette.value;
      forall i | 0 <= i < s.w * s.h
        ensures pa[i] == pb[i]
      {
        WordIsPixelWhenTight(s, bytes, order, i);
      }
      assert pa == pb;
    }
  }

  /** A decoder that reads a little-endian 24-bit sample as red, green, blue
      and opaque alpha. */
  function Rgb24(v: Word): (c: Color)
  {
    Color(v % 0x100, (v / 0x100) % 0x100, (v / 0x1_0000) % 0x100, 0xFF)
  }

  function PackRgb24(c: Color): (v: Word)
  {
    c.r + 0x100 * c.g + 0x1_0000 * c.b
  }

  /** A decoder that reads a 32-bit sample as red, green, blue and alpha,
      least significant byte first. */
  function Rgba32(v: Word): (c: Color)
  {
    Color(v % 0x100, (v / 0x100) % 0x100, (v / 0x1_0000) % 0x100, v / 0x100_0000)
  }

  function PackRgba32(c: Color): (v: Word)
  {
    c.r + 0x100 * c.g + 0x1_0000 * c.b + 0x100_0000 * c.a
  }

  /** The RGBA8888 codec loses nothing. */
  lemma Rgba32RoundTrip(c: Color)
    ensures PackRgba32(c) < Pow256(4) && Rgba32(PackRgba32(c)) == c
  {
    var v := PackRgba32(c);
    assert Pow256(4) == 0x1_0000_0000;
    DivModUnique(v, 0x100, c.g + 0x100 * c.b + 0x1_0000 * c.a, c.r);
    DivModUnique(v, 0x1_0000, c.b + 0x100 * c.a, c.r + 0x100 * c.g);
    DivModUnique(v, 0x100_0000, c.a, c.r + 0x100 * c.g + 0x1_0000 * c.b);
    DivModUnique(v / 0x100, 0x100, c.b + 0x100 * c.a, c.g);
    DivModUnique(v / 0x1_0000, 0x100, c.a, c.b);
  }

  /** ... and every 32-bit sample is the encoding of its decoding. */
  lemma Rgba32Inverse(v: Word)
    ensures PackRgba32(Rgba32(v)) == v
  {
    var a, b := v / 0x100, v / 0x1_0000;
    var c := b / 0x100;
    DivModBounds(v, 0x100);
    DivModBounds(a, 0x100);
    DivModBounds(b, 0x100);
    DivDiv256(v);
    var low := v % 0x100 + 0x100 * (a % 0x100) + 0x1_0000 * (b % 0x100);
    assert v == c * 0x100_0000 + low;
    DivModUnique(v, 0x100_0000, c, low);
  }

  /** On a two-pixel 24-bit image (pitch padded to 8 bytes) the word-indexed
      extraction gives entry 1 the colour (5, 6, 0), while pixel (1, 0) is
      (4, 5, 6): entries past the first are read from the wrong bytes. */
  lemma WordIndexingMisreads24Bit()
    ensures
      var s := Surface(2, 1, 8, PixelFormat(3, Rgb24, PackRgb24), false);
      var bytes: seq<Byte> := [1, 2, 3, 4, 5, 6, 0, 0];
      var r := LoadPalette(Some(s), bytes, Some(Outputs(None, 0)), true, LittleEndian);
      WellFormed(s, |bytes|) && InImage(s, 1, 0) &&
      r.Some? && r.value.palette.Some? && |r.value.palette.value| == 2 &&
      r.value.palette.value[1] == Color(5, 6, 0, 0xFF) &&
      ReadColor(bytes, s, 1, 0, LittleEndian) == Color(4, 5, 6, 0xFF)
  {
    var s := Surface(2, 1, 8, PixelFormat(3, Rgb24, PackRgb24), false);
    var bytes: seq<Byte> := [1, 2, 3, 4, 5, 6, 0, 0];
    assert WordsFit(s, |bytes|);
    var word := bytes[4..8];
    assert word == [5, 6, 0, 0];
    assert LoadLE(word) == 5 + 0x100 * 6 by {
      assert word[1..] == [6, 0, 0];
      assert word[1..][1..] == [0, 0];
      assert word[1..][1..][1..] == [0];
      assert word[1..][1..][1..][1..] == [];
      assert LoadLE([0]) == 0;
      assert LoadLE([0, 0]) == 0;
      assert LoadLE([6, 0, 0]) == 6;
    }
    assert PixelWord(bytes, 1, LittleEndian) == 0x605;
    assert Offset(s, 1, 0) == 3;
    assert PixelBytes(bytes, s, 1, 0) == [4, 5, 6];
  }

  /** Without row padding, a surface of 1-, 2- or 3-byte pixels holds fewer
      bytes than the `w * h` 32-bit words the extraction reads: the last
      words lie past the end of the buffer. */
  lemma {:induction false} WordIndexingOverreadsNarrowPixels(s: Surface, len: int)
    requires WellFormed(s, len) && 1 <= s.format.bytesPerPixel <= 3
    requires s.pitch == s.w * s.format.bytesPerPixel && len == s.h * s.pitch
    requires s.w * s.h > 0
    ensures len < 4 * (s.w * s.h) && !WordsFit(s, len)
  {
    var bpp, n := s.format.bytesPerPixel, s.w * s.h;
    assert len == bpp * n;
    assert len < 4 * n by { MulLeq(bpp, 3, n); }
  }

  /** The smallest ordinary case: a 4x1 image of 24-bit pixels, 12 bytes in
      all, of which the extraction reads 16. */
  lemma WordIndexingOverreads24Bit()
    ensures
      var s := Surface(4, 1, 12, PixelFormat(3, Rgb24, PackRgb24), false);
      WellFormed(s, 12) && !WordsFit(s, 12) && 4 * (s.w * s.h) == 16
  {
    WordIndexingOverreadsNarrowPixels(Surface(4, 1, 12, PixelFormat(3, Rgb24, PackRgb24), false), 12);
  }
}
