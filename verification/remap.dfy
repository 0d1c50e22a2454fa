/** The remapper: every pixel of the image gets the red, green and blue of
    its nearest palette entry and keeps its own alpha, written back in the
    image's own depth and byte order. */
module Remap {
  import opened Pixels
  import opened Colors
  import opened Surfaces
  import opened Scan
  import opened Palette

  /** The palette may be read where the remapper reads it: `paletteSize`
      entries exist, and entry 0 exists whenever there is a pixel, since an
      empty search answers 0 and that entry is then read. */
  predicate PaletteReadable(s: Surface, palette: seq<Color>, paletteSize: int)
  {
    paletteSize <= |palette| && (s.w > 0 && s.h > 0 ==> |palette| > 0)
  }

  /** The colour handed to the encoder for a source colour `c`: red, green
      and blue of the nearest candidate, alpha of the source. */
  function Recolor(c: Color, palette: seq<Color>, paletteSize: int): (t: Color)
    requires paletteSize <= |palette| && |palette| > 0
    ensures t.a == c.a
    ensures SameRgb(t, palette[ClosestIndex(palette, paletteSize, c)])
    ensures forall j :: 0 <= j < paletteSize ==> SqDist(t, c) <= SqDist(palette[j], c)
    ensures forall j :: 0 <= j < paletteSize && j < ClosestIndex(palette, paletteSize, c) ==>
      SqDist(t, c) < SqDist(palette[j], c)
  {
    var k := ClosestIndex(palette, paletteSize, c);
    Color(palette[k].r, palette[k].g, palette[k].b, c.a)
  }

  /** The sample written for a source sample: decode, match, re-encode with
      the nearest entry's red, green and blue and the source's alpha. */
  function MapSample(sample: Word, format: PixelFormat, palette: seq<Color>, paletteSize: int): (m: Word)
    requires paletteSize <= |palette| && |palette| > 0
    ensures var src, p := format.unpack(sample), palette[ClosestIndex(palette, paletteSize, format.unpack(sample))];
      m == format.pack(Color(p.r, p.g, p.b, src.a))
  {
    format.pack(Recolor(format.unpack(sample), palette, paletteSize))
  }

  /** The bytes written for a pixel holding `px`: the read switch, the
      match and the write switch. */
  function MapBytes(px: seq<Byte>, format: PixelFormat, palette: seq<Color>, paletteSize: int,
                    order: ByteOrder): (out: seq<Byte>)
    requires |px| == Width(format.bytesPerPixel) && paletteSize <= |palette| && |palette| > 0
    ensures |out| == |px|
  {
    var bpp := format.bytesPerPixel;
    StoreSample(MapSample(LoadSample(px, bpp, order), format, palette, paletteSize), bpp, order)
  }

  /** `MapBytes` as the per-pixel map of the scan. The guard never fails on
      a pixel: pixel bytes have the pixel's width, and the palette is not
      empty when the image has a pixel. */
  function PixelMap(format: PixelFormat, palette: seq<Color>, paletteSize: int, order: ByteOrder)
    : (f: seq<Byte> -> seq<Byte>)
    requires paletteSize <= |palette|
    ensures KeepsWidth(f, Width(format.bytesPerPixel))
  {
    px => if |px| == Width(format.bytesPerPixel) && |palette| > 0
          then MapBytes(px, format, palette, paletteSize, order) else px
  }

  /** `remapImageColors` as a function of the pixel buffer: nothing happens
      for a null surface or a lock that fails; otherwise every pixel is
      remapped. */
  function RemappedPixels(image: Option<Surface>, bytes: seq<Byte>, lockOk: bool,
                          palette: seq<Color>, paletteSize: int, order: ByteOrder): (r: seq<Byte>)
    requires image.Some? ==> WellFormed(image.value, |bytes|) && PaletteReadable(image.value, palette, paletteSize)
    ensures |r| == |bytes|
    ensures image.None? || (image.value.mustLock && !lockOk) ==> r == bytes
  {
    if image.None? then bytes
    else if image.value.mustLock && !lockOk then bytes
    else
      var s := image.value;
      MapAll(bytes, s, PixelMap(s.format, palette, paletteSize, order))
  }

  /** The remap runs: a surface is given and no lock is needed or the lock
      succeeded. */
  predicate Runs(image: Option<Surface>, lockOk: bool)
  {
    image.Some? && (!image.value.mustLock || lockOk)
  }

  /** Every pixel ends up holding the bytes computed from its original
      bytes. */
  lemma RemapPixelContent(image: Option<Surface>, bytes: seq<Byte>, lockOk: bool,
                          palette: seq<Color>, paletteSize: int, order: ByteOrder, x: int, y: int)
    requires Runs(image, lockOk)
    requires WellFormed(image.value, |bytes|) && PaletteReadable(image.value, palette, paletteSize)
    requires InImage(image.value, x, y)
    ensures |palette| > 0
    ensures PixelBytes(RemappedPixels(image, bytes, lockOk, palette, paletteSize, order), image.value, x, y)
         == MapBytes(PixelBytes(bytes, image.value, x, y), image.value.format, palette, paletteSize, order)
  {
    var s := image.value;
    MapAllPixel(bytes, s, PixelMap(s.format, palette, paletteSize, order), x, y);
  }

  /** A byte that belongs to no pixel (row padding, the tail of the buffer)
      keeps its value. */
  lemma RemapFrame(image: Option<Surface>, bytes: seq<Byte>, lockOk: bool,
                   palette: seq<Color>, paletteSize: int, order: ByteOrder, k: int)
    requires image.Some? ==> WellFormed(image.value, |bytes|) && PaletteReadable(image.value, palette, paletteSize)
    requires 0 <= k < |bytes|
    requires image.Some? ==> !InSomePixel(image.value, k)
    ensures RemappedPixels(image, bytes, lockOk, palette, paletteSize, order)[k] == bytes[k]
  {
    if Runs(image, lockOk) {
      var s := image.value;
      MapAllFrame(bytes, s, PixelMap(s.format, palette, paletteSize, order), k);
    }
  }

  /** The padding at the end of every row is never written. */
  lemma RowPaddingUntouched(image: Option<Surface>, bytes: seq<Byte>, lockOk: bool,
                            palette: seq<Color>, paletteSize: int, order: ByteOrder, row: int, col: int)
    requires image.Some? && WellFormed(image.value, |bytes|) && PaletteReadable(image.value, palette, paletteSize)
    requires IsPadding(image.value, row, col)
    ensures var k := row * image.value.pitch + col;
      0 <= k < |bytes| && RemappedPixels(image, bytes, lockOk, palette, paletteSize, order)[k] == bytes[k]
  {
    var s := image.value;
    var k := row * s.pitch + col;
    PaddingInNoPixel(s, |bytes|, row, col);
    RemapFrame(image, bytes, lockOk, palette, paletteSize, order, k);
    assert RemappedPixels(image, bytes, lockOk, palette, paletteSize, order)[k] == bytes[k];
  }

  /** A depth outside 1 to 4 bytes matches no case of the write switch, so
      the buffer is left as it was. */
  lemma UnhandledDepthWritesNothing(image: Option<Surface>, bytes: seq<Byte>, lockOk: bool,
                                    palette: seq<Color>, paletteSize: int, order: ByteOrder)
    requires image.Some? ==> WellFormed(image.value, |bytes|) && PaletteReadable(image.value, palette, paletteSize)
    requires image.Some? ==> !(1 <= image.value.format.bytesPerPixel <= 4)
    ensures RemappedPixels(image, bytes, lockOk, palette, paletteSize, order) == bytes
  {
    var r := RemappedPixels(image, bytes, lockOk, palette, paletteSize, order);
    forall k | 0 <= k < |bytes|
      ensures r[k] == bytes[k]
    {
      RemapFrame(image, bytes, lockOk, palette, paletteSize, order, k);
    }
  }

  /** Reading a remapped pixel back decodes the encoder's output for the
      recoloured source colour, cut to the pixel's depth (to nothing, so the
      decoder sees 0, for a depth the remapper skips). Nothing is assumed of
      the encoder or the decoder. */
  lemma RemapReadsBack(image: Option<Surface>, bytes: seq<Byte>, lockOk: bool,
                       palette: seq<Color>, paletteSize: int, order: ByteOrder, x: int, y: int)
    requires Runs(image, lockOk)
    requires WellFormed(image.value, |bytes|) && PaletteReadable(image.value, palette, paletteSize)
    requires InImage(image.value, x, y)
    ensures var s := image.value;
      var before := ReadColor(bytes, s, x, y, order);
      var after := ReadColor(RemappedPixels(image, bytes, lockOk, palette, paletteSize, order), s, x, y, order);
      after == s.format.unpack(s.format.pack(Recolor(before, palette, paletteSize)) % Samples(s.format.bytesPerPixel))
  {
    var s := image.value;
    var bpp := s.format.bytesPerPixel;
    RemapPixelContent(image, bytes, lockOk, palette, paletteSize, order, x, y);
    var m := s.format.pack(Recolor(ReadColor(bytes, s, x, y, order), palette, paletteSize));
    var out := PixelBytes(RemappedPixels(image, bytes, lockOk, palette, paletteSize, order), s, x, y);
    assert out == StoreSample(m, bpp, order);
    if 1 <= bpp <= 4 {
      SampleRoundTrip(m, bpp, order);
    } else {
      assert m % Pow256(0) == 0;
    }
  }

  /** Encoding keeps an alpha value the decoder can produce: encode a colour
      with such an alpha, cut the sample to the pixel's depth, decode, and
      the alpha is back. Formats without an alpha channel meet this, since
      their decoder always answers opaque. */
  ghost predicate AlphaSurvives(format: PixelFormat)
  {
    var n := Samples(format.bytesPerPixel);
    forall c: Color, v: Word :: v < n && format.unpack(v).a == c.a ==> format.unpack(format.pack(c) % n).a == c.a
  }

  /** Alpha preservation: a remapped pixel reads back with the source
      pixel's alpha, for every depth and both byte orders. */
  lemma RemapKeepsAlpha(image: Option<Surface>, bytes: seq<Byte>, lockOk: bool,
                        palette: seq<Color>, paletteSize: int, order: ByteOrder, x: int, y: int)
    requires Runs(image, lockOk)
    requires WellFormed(image.value, |bytes|) && PaletteReadable(image.value, palette, paletteSize)
    requires AlphaSurvives(image.value.format)
    requires InImage(image.value, x, y)
    ensures ReadColor(RemappedPixels(image, bytes, lockOk, palette, paletteSize, order), image.value, x, y, order).a
         == ReadColor(bytes, image.value, x, y, order).a
  {
    var s := image.value;
    var bpp := s.format.bytesPerPixel;
    RemapReadsBack(image, bytes, lockOk, palette, paletteSize, order, x, y);
    var v := LoadSample(PixelBytes(bytes, s, x, y), bpp, order);
    var t := Recolor(s.format.unpack(v), palette, paletteSize);
    assert v < Samples(bpp) && s.format.unpack(v).a == t.a;
  }

  /** The 24-bit opaque format meets the alpha condition. */
  lemma Rgb24KeepsAlpha()
    ensures AlphaSurvives(PixelFormat(3, Rgb24, PackRgb24))
  {
  }

  /** The encoder and decoder are inverse on colours and every encoded
      colour fits the pixel's depth. Only a 4-byte format can meet this: a
      smaller depth has fewer samples than there are colours. */
  ghost predicate ColorsRoundTrip(format: PixelFormat)
  {
    forall c: Color :: format.pack(c) < Pow256(Width(format.bytesPerPixel)) && format.unpack(format.pack(c)) == c
  }

  /** The colour round trip rules out every depth but four bytes: the
      encoder would have to send the colours `Rgba32(0)` to
      `Rgba32(Samples(bpp))`, all distinct, to distinct samples below
      `Samples(bpp)`. */
  lemma ColorsRoundTripNeedsFourBytes(format: PixelFormat)
    requires format.bytesPerPixel != 4
    ensures !ColorsRoundTrip(format)
  {
    var n := Samples(format.bytesPerPixel);
    if ColorsRoundTrip(format) {
      assert n <= 0x100_0000 by {
        assert Pow256(3) == 0x100_0000;
        var w := Width(format.bytesPerPixel);
        assert w == 0 || w == 1 || w == 2 || w == 3;
      }
      var s := seq(n + 1, i requires 0 <= i < n + 1 => format.pack(Rgba32(i)));
      forall i | 0 <= i < |s|
        ensures 0 <= s[i] < n
      {
        assert format.pack(Rgba32(i)) < Pow256(Width(format.bytesPerPixel));
      }
      forall i, j | 0 <= i < j < |s|
        ensures s[i] != s[j]
      {
        if s[i] == s[j] {
          assert Rgba32(i) == format.unpack(s[i]) == Rgba32(j);
          Rgba32Inverse(i);
          Rgba32Inverse(j);
        }
      }
      Pigeonhole(s, n);
    }
  }

  /** For a 32-bit format whose codec loses nothing, a remapped pixel reads
      back as exactly the source's alpha with the nearest entry's red, green
      and blue. */
  lemma RemapReadsNearest(image: Option<Surface>, bytes: seq<Byte>, lockOk: bool,
                          palette: seq<Color>, paletteSize: int, order: ByteOrder, x: int, y: int)
    requires Runs(image, lockOk)
    requires WellFormed(image.value, |bytes|) && PaletteReadable(image.value, palette, paletteSize)
    requires image.value.format.bytesPerPixel == 4 && ColorsRoundTrip(image.value.format)
    requires InImage(image.value, x, y)
    ensures var before := ReadColor(bytes, image.value, x, y, order);
      var after := ReadColor(RemappedPixels(image, bytes, lockOk, palette, paletteSize, order), image.value, x, y, order);
      after == Recolor(before, palette, paletteSize)
  {
    var s := image.value;
    RemapReadsBack(image, bytes, lockOk, palette, paletteSize, order, x, y);
    var m := s.format.pack(Recolor(ReadColor(bytes, s, x, y, order), palette, paletteSize));
    assert m < Pow256(4);
    DivModUnique(m, Pow256(4), 0, m);
  }

  /** The RGBA8888 codec meets the colour round trip. */
  lemma Rgba32RoundTrips()
    ensures ColorsRoundTrip(PixelFormat(4, Rgba32, PackRgba32))
  {
    forall c: Color
      ensures PackRgba32(c) < Pow256(4) && Rgba32(PackRgba32(c)) == c
    {
      Rgba32RoundTrip(c);
    }
  }

  /** Decoding then encoding any sample of the pixel's depth gives the sample
      back. */
  ghost predicate SamplesRoundTrip(format: PixelFormat)
  {
    forall v: Word :: v < Pow256(Width(format.bytesPerPixel)) ==> format.pack(format.unpack(v)) == v
  }

  /** A pixel whose colour is one of the candidates gets its own bytes
      back. */
  lemma PixelWithPaletteColorUnchanged(bytes: seq<Byte>, s: Surface, x: int, y: int,
                                       palette: seq<Color>, paletteSize: int, order: ByteOrder, i: int)
    requires WellFormed(s, |bytes|) && PaletteReadable(s, palette, paletteSize) && InImage(s, x, y)
    requires 1 <= s.format.bytesPerPixel <= 4 && SamplesRoundTrip(s.format)
    requires 0 <= i < paletteSize && palette[i] == ReadColor(bytes, s, x, y, order)
    ensures MapBytes(PixelBytes(bytes, s, x, y), s.format, palette, paletteSize, order) == PixelBytes(bytes, s, x, y)
  {
    var bpp := s.format.bytesPerPixel;
    var px := PixelBytes(bytes, s, x, y);
    var sample := LoadSample(px, bpp, order);
    var c := s.format.unpack(sample);
    var cs := Candidates(palette, paletteSize);
    assert cs[i] == c;
    ExactMatchWins(cs, c, i);
    assert Recolor(c, palette, paletteSize) == c;
    assert s.format.pack(c) == sample;
    PixelBytesRoundTrip(px, bpp, order);
  }

  lemma PixelIndex(s: Surface, x: int, y: int)
    requires InImage(s, x, y)
    ensures 0 <= y * s.w + x < s.w * s.h
    ensures (y * s.w + x) % s.w == x && (y * s.w + x) / s.w == y
  {
    DivModUnique(y * s.w + x, s.w, y, x);
    MulLeq(y + 1, s.h, s.w);
  }

  /** Against the palette made of the image's own pixels, a pixel's new bytes
      are its old ones. */
  lemma OwnPixelKeepsBytes(bytes: seq<Byte>, s: Surface, o: Outputs, order: ByteOrder, x: int, y: int)
    requires WellFormed(s, |bytes|) && HoldsPixelPalette(o, s, bytes, order)
    requires 1 <= s.format.bytesPerPixel <= 4 && SamplesRoundTrip(s.format)
    requires InImage(s, x, y)
    ensures PaletteReadable(s, o.palette.value, o.paletteSize)
    ensures MapBytes(PixelBytes(bytes, s, x, y), s.format, o.palette.value, o.paletteSize, order)
         == PixelBytes(bytes, s, x, y)
  {
    PixelIndex(s, x, y);
    var i := y * s.w + x;
    assert o.palette.value[i] == ReadColor(bytes, s, x, y, order);
    PixelWithPaletteColorUnchanged(bytes, s, x, y, o.palette.value, o.paletteSize, order, i);
  }

  /** Loading the palette from an image (pixel by pixel) and remapping the
      same image against it leaves the image unchanged: every pixel is its
      own nearest match. */
  lemma RemapAgainstOwnPixelsIsIdentity(image: Option<Surface>, bytes: seq<Byte>, lockOk: bool,
                                        outputs: Outputs, order: ByteOrder)
    requires Runs(image, lockOk) && WellFormed(image.value, |bytes|)
    requires 1 <= image.value.format.bytesPerPixel <= 4 && SamplesRoundTrip(image.value.format)
    ensures var o := LoadPaletteByPixel(image, bytes, Some(outputs), true, order);
      o.Some? && o.value.palette.Some? &&
      PaletteReadable(image.value, o.value.palette.value, o.value.paletteSize) &&
      RemappedPixels(image, bytes, lockOk, o.value.palette.value, o.value.paletteSize, order) == bytes
  {
    var s := image.value;
    var o := LoadPaletteByPixel(image, bytes, Some(outputs), true, order).value;
    var palette, paletteSize := o.palette.value, o.paletteSize;
    if s.w > 0 && s.h > 0 {
      OwnPixelKeepsBytes(bytes, s, o, order, 0, 0);
    }
    var f := PixelMap(s.format, palette, paletteSize, order);
    forall x, y | InImage(s, x, y)
      ensures f(PixelBytes(bytes, s, x, y)) == PixelBytes(bytes, s, x, y)
    {
      OwnPixelKeepsBytes(bytes, s, o, order, x, y);
    }
    MapAllFixed(bytes, s, f);
  }

  /** The same for the extraction as written, on the images where it reads
      one word per pixel: 32-bit surfaces whose rows carry no padding. */
  lemma RemapAgainstOwnWordsIsIdentity(image: Option<Surface>, bytes: seq<Byte>, lockOk: bool,
                                       outputs: Outputs, order: ByteOrder)
    requires Runs(image, lockOk) && WellFormed(image.value, |bytes|)
    requires image.value.format.bytesPerPixel == 4 && image.value.pitch == 4 * image.value.w
    requires image.value.w * image.value.h <= IntMax && SamplesRoundTrip(image.value.format)
    ensures WordsFit(image.value, |bytes|)
    ensures var o := LoadPalette(image, bytes, Some(outputs), true, order);
      o.Some? && o.value.palette.Some? &&
      PaletteReadable(image.value, o.value.palette.value, o.value.paletteSize) &&
      RemappedPixels(image, bytes, lockOk, o.value.palette.value, o.value.paletteSize, order) == bytes
  {
    TightWordsArePixels(image.value, bytes, Some(outputs), true, order);
    RemapAgainstOwnPixelsIsIdentity(image, bytes, lockOk, outputs, order);
  }

  /** The two-pixel example: (10, 10, 10, 255) and (250, 250, 250, 128)
      against black and white become (0, 0, 0, 255) and (255, 255, 255, 128). */
  lemma BlackAndWhiteExample()
    ensures var palette := [Color(0, 0, 0, 255), Color(255, 255, 255, 255)];
      Recolor(Color(10, 10, 10, 255), palette, 2) == Color(0, 0, 0, 255) &&
      Recolor(Color(250, 250, 250, 128), palette, 2) == Color(255, 255, 255, 128)
  {
    var palette := [Color(0, 0, 0, 255), Color(255, 255, 255, 255)];
    assert palette[..2] == palette;
    assert palette[..1] == [palette[0]];
  }

  /** The loop body of `remapImageColors` for pixel `(x, y)`: the read
      switch assembles the sample, the scan finds the nearest entry, the
      encoder gets that entry's red, green and blue with the source alpha,
      and the write switch stores exactly the pixel's bytes. */
  method RemapPixel(pixels: array<Byte>, s: Surface, x: int, y: int,
                    palette: seq<Color>, paletteSize: int, order: ByteOrder)
    requires WellFormed(s, pixels.Length) && PaletteReadable(s, palette, paletteSize) && InImage(s, x, y)
    modifies pixels
    ensures |palette| > 0
    ensures pixels[..] == WritePixel(old(pixels[..]), s, x, y,
                                     MapBytes(PixelBytes(old(pixels[..]), s, x, y), s.format, palette, paletteSize, order))
  {
    var bpp := s.format.bytesPerPixel;
    var n := Width(bpp);
    var px: seq<Byte> := [];
    if n > 0 {
      PixelInBuffer(s, pixels.Length, x, y);
      var p := y * s.pitch + x * bpp;
      px := pixels[p .. p + n];
    }
    assert px == PixelBytes(pixels[..], s, x, y);
    var pixel := LoadSample(px, bpp, order);
    var color := s.format.unpack(pixel);
    var closestIndex := FindClosestColor(palette, paletteSize, color);
    FindClosestColorAgrees(palette, paletteSize, color, closestIndex);
    var entry := palette[closestIndex];
    var mappedPixel := s.format.pack(Color(entry.r, entry.g, entry.b, color.a));
    var out := StoreSample(mappedPixel, bpp, order);
    assert out == MapBytes(px, s.format, palette, paletteSize, order);
    StorePixel(pixels, s, x, y, out);
  }

  /** `remapImageColors`, in place: with a surface whose lock (if needed)
      succeeds, every pixel in row-major order. */
  method RemapImageColors(image: Option<Surface>, pixels: array<Byte>, lockOk: bool,
                          palette: seq<Color>, paletteSize: int, order: ByteOrder)
    requires image.Some? ==> WellFormed(image.value, pixels.Length) && PaletteReadable(image.value, palette, paletteSize)
    modifies pixels
    ensures pixels[..] == RemappedPixels(image, old(pixels[..]), lockOk, palette, paletteSize, order)
  {
    if image.None? {
      return;
    }
    var s := image.value;
    if s.mustLock && !lockOk {
      return;
    }
    ghost var original := pixels[..];
    ghost var f := PixelMap(s.format, palette, paletteSize, order);
    MapBeforeStart(original, s, f);
    var y := 0;
    while y < s.h
      invariant 0 <= y <= s.h
      invariant pixels[..] == MapBefore(original, s, 0, y, f)
    {
      var x := 0;
      while x < s.w
        invariant 0 <= x <= s.w
        invariant pixels[..] == MapBefore(original, s, x, y, f)
      {
        MapBeforeStep(original, s, x, y, f);
        RemapPixel(pixels, s, x, y, palette, paletteSize, order);
        x := x + 1;
      }
      MapBeforeNextRow(original, s, y, f);
      y := y + 1;
    }
  }
}
