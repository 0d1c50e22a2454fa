/** Surfaces as the remapper sees them: geometry, pixel format and where
    each pixel's bytes lie in the pixel buffer. The buffer itself is passed
    separately (a sequence for the pure definitions, an array for the
    in-place remap). */
module Surfaces {
  import opened Pixels
  import opened Colors

  /** A possibly-null pointer. */
  datatype Option<T> = None | Some(value: T)

  /** The part of `SDL_PixelFormat` the core uses: the byte depth, and the
      channel decoder (`SDL_GetRGBA`) and encoder (`SDL_MapRGBA`) taken as
      given functions of the format's masks and shifts. */
  datatype PixelFormat = PixelFormat(bytesPerPixel: int, unpack: Word -> Color, pack: Color -> Word)

  /** Width, height, bytes per row and format of an `SDL_Surface`;
      `mustLock` is `SDL_MUSTLOCK`. */
  datatype Surface = Surface(w: int, h: int, pitch: int, format: PixelFormat, mustLock: bool)

  /** The buffer of `len` bytes holds `h` rows of `pitch` bytes, each row
      wide enough for `w` pixels of the handled depths. */
  predicate WellFormed(s: Surface, len: int)
  {
    0 <= s.w && 0 <= s.h && s.w * Width(s.format.bytesPerPixel) <= s.pitch && s.h * s.pitch <= len
  }

  /** Byte offset of pixel `(x, y)`: `y * pitch + x * bpp`. When the pixel
      starts inside a row, the offset lands in row `y` at byte `x * bpp`. */
  function Offset(s: Surface, x: int, y: int): (o: int)
    ensures 0 <= x * s.format.bytesPerPixel < s.pitch ==>
      o / s.pitch == y && o % s.pitch == x * s.format.bytesPerPixel
  {
    var col := x * s.format.bytesPerPixel;
    var o := y * s.pitch + col;
    if 0 <= col < s.pitch then DivModUnique(o, s.pitch, y, col); o else o
  }

  predicate InImage(s: Surface, x: int, y: int)
  {
    0 <= x < s.w && 0 <= y < s.h
  }

  /** Byte `k` is one of the bytes an access to pixel `(x, y)` touches. */
  predicate InPixel(s: Surface, k: int, x: int, y: int)
  {
    Offset(s, x, y) <= k < Offset(s, x, y) + Width(s.format.bytesPerPixel)
  }

  /** Row-major visiting order: `(x, y)` comes before the cursor `(cx, cy)`. */
  predicate Before(x: int, y: int, cx: int, cy: int)
  {
    y < cy || (y == cy && x < cx)
  }

  /** Every byte of every pixel lies inside the buffer. */
  lemma {:induction false} PixelInBuffer(s: Surface, len: int, x: int, y: int)
    requires WellFormed(s, len) && InImage(s, x, y) && Width(s.format.bytesPerPixel) > 0
    ensures 0 <= Offset(s, x, y) && Offset(s, x, y) + Width(s.format.bytesPerPixel) <= len
  {
    var bpp := s.format.bytesPerPixel;
    assert Offset(s, x, y) == y * s.pitch + x * bpp;
    RowBounds(s.w, s.h, s.pitch, bpp, len, x, y);
  }

  /** The arithmetic behind `PixelInBuffer`. */
  lemma RowBounds(w: int, h: int, pitch: int, bpp: int, len: int, x: int, y: int)
    requires 0 <= x < w && 0 <= y < h && 0 < bpp && w * bpp <= pitch && h * pitch <= len
    ensures 0 <= y * pitch + x * bpp && y * pitch + x * bpp + bpp <= len
  {
    MulLeq(x + 1, w, bpp);
    MulLeq(y + 1, h, pitch);
    MulLeq(0, y, pitch);
    MulLeq(0, x, bpp);
  }

  /** Pixels visited earlier end before later ones begin, so the ranges of
      different pixels never overlap. */
  lemma {:induction false} EarlierPixelEndsFirst(s: Surface, len: int, x1: int, y1: int, x2: int, y2: int)
    requires WellFormed(s, len) && InImage(s, x1, y1) && InImage(s, x2, y2)
    requires Width(s.format.bytesPerPixel) > 0 && Before(x1, y1, x2, y2)
    ensures Offset(s, x1, y1) + Width(s.format.bytesPerPixel) <= Offset(s, x2, y2)
  {
    var bpp := s.format.bytesPerPixel;
    assert (x1 + 1) * bpp == x1 * bpp + bpp;
    if y1 == y2 {
      MulLeq(x1 + 1, x2, bpp);
    } else {
      MulLeq(x1 + 1, s.w, bpp);
      MulLeq(y1 + 1, y2, s.pitch);
      MulLeq(0, x2, bpp);
      assert (y1 + 1) * s.pitch == y1 * s.pitch + s.pitch;
      assert Offset(s, x1, y1) + bpp <= (y1 + 1) * s.pitch;
    }
  }

  /** Byte `k` belongs to some pixel of the image. */
  ghost predicate InSomePixel(s: Surface, k: int)
  {
    exists x, y :: InImage(s, x, y) && InPixel(s, k, x, y)
  }

  /** Column `col` of row `row` lies past the last pixel of the row. */
  predicate IsPadding(s: Surface, row: int, col: int)
  {
    0 <= row < s.h && s.w * Width(s.format.bytesPerPixel) <= col < s.pitch
  }

  lemma PaddingNotInPixel(s: Surface, len: int, row: int, col: int, x: int, y: int)
    requires WellFormed(s, len) && IsPadding(s, row, col) && InImage(s, x, y)
    ensures !InPixel(s, row * s.pitch + col, x, y)
  {
    var bpp := s.format.bytesPerPixel;
    if Width(bpp) > 0 {
      MulLeq(0, x, bpp);
      MulLeq(x + 1, s.w, bpp);
      assert (x + 1) * bpp == x * bpp + bpp;
      if y < row {
        MulLeq(y + 1, row, s.pitch);
        assert (y + 1) * s.pitch == y * s.pitch + s.pitch;
      } else if y > row {
        MulLeq(row + 1, y, s.pitch);
        assert (row + 1) * s.pitch == row * s.pitch + s.pitch;
      }
    }
  }

  /** Row padding belongs to no pixel. */
  lemma PaddingInNoPixel(s: Surface, len: int, row: int, col: int)
    requires WellFormed(s, len) && IsPadding(s, row, col)
    ensures 0 <= row * s.pitch + col < len
    ensures !InSomePixel(s, row * s.pitch + col)
  {
    MulLeq(row + 1, s.h, s.pitch);
    MulLeq(0, row, s.pitch);
    forall x, y | InImage(s, x, y)
      ensures !InPixel(s, row * s.pitch + col, x, y)
    {
      PaddingNotInPixel(s, len, row, col, x, y);
    }
  }

  /** The bytes of pixel `(x, y)`; none for an unhandled depth. */
  function PixelBytes(bytes: seq<Byte>, s: Surface, x: int, y: int): (px: seq<Byte>)
    requires WellFormed(s, |bytes|) && InImage(s, x, y)
    ensures |px| == Width(s.format.bytesPerPixel)
  {
    var n := Width(s.format.bytesPerPixel);
    if n == 0 then []
    else
      PixelInBuffer(s, |bytes|, x, y);
      var off := Offset(s, x, y);
      bytes[off .. off + n]
  }

  lemma PixelByteAt(bytes: seq<Byte>, s: Surface, x: int, y: int, j: int)
    requires WellFormed(s, |bytes|) && InImage(s, x, y)
    requires 0 <= j < Width(s.format.bytesPerPixel)
    ensures 0 <= Offset(s, x, y) + j < |bytes|
    ensures PixelBytes(bytes, s, x, y)[j] == bytes[Offset(s, x, y) + j]
  {
    PixelInBuffer(s, |bytes|, x, y);
  }

  /** The colour the decoder reads at pixel `(x, y)`: the sample made of the
      bytes at the pixel's offset, or 0 for a depth the core does not handle. */
  function ReadColor(bytes: seq<Byte>, s: Surface, x: int, y: int, order: ByteOrder): (c: Color)
    requires WellFormed(s, |bytes|) && InImage(s, x, y)
    ensures Width(s.format.bytesPerPixel) == 0 ==> c == s.format.unpack(0)
    ensures var n, off := Width(s.format.bytesPerPixel), Offset(s, x, y);
      n > 0 ==>
        0 <= off && off + n <= |bytes| &&
        c == s.format.unpack(LoadSample(bytes[off .. off + n], s.format.bytesPerPixel, order))
  {
    var c := s.format.unpack(LoadSample(PixelBytes(bytes, s, x, y), s.format.bytesPerPixel, order));
    if Width(s.format.bytesPerPixel) > 0 then PixelInBuffer(s, |bytes|, x, y); c else c
  }

  /** `bytes` with pixel `(x, y)` overwritten by `px`. */
  function WritePixel(bytes: seq<Byte>, s: Surface, x: int, y: int, px: seq<Byte>): (r: seq<Byte>)
    requires WellFormed(s, |bytes|) && InImage(s, x, y)
    requires |px| == Width(s.format.bytesPerPixel)
    ensures |r| == |bytes|
    ensures PixelBytes(r, s, x, y) == px
    ensures forall k :: 0 <= k < |bytes| && !InPixel(s, k, x, y) ==> r[k] == bytes[k]
  {
    if |px| == 0 then bytes
    else
      PixelInBuffer(s, |bytes|, x, y);
      var off := Offset(s, x, y);
      bytes[..off] + px + bytes[off + |px|..]
  }
}
