/** The in-place scan over a surface's pixels: rows top to bottom, pixels
    left to right, each pixel's bytes replaced by a function of the bytes it
    holds when it is visited. The state of the buffer after the pixels
    before a cursor is given in closed form, byte by byte, by locating the
    pixel each byte belongs to. */
module Scan {
  import opened Pixels
  import opened Surfaces

  /** `f` maps the bytes of one pixel to as many bytes. */
  ghost predicate KeepsWidth(f: seq<Byte> -> seq<Byte>, n: nat)
  {
    forall px: seq<Byte> :: |px| == n ==> |f(px)| == n
  }

  /** Byte `k` lies in the pixel part of one of the image's rows. */
  predicate Covered(s: Surface, k: int)
  {
    Width(s.format.bytesPerPixel) > 0 && s.pitch > 0 && 0 <= k &&
    k / s.pitch < s.h && k % s.pitch < s.w * s.format.bytesPerPixel
  }

  /** Row, column and byte lane of a covered byte. */
  function RowOf(s: Surface, k: int): (row: int)
    requires Covered(s, k)
  {
    k / s.pitch
  }

  function ColOf(s: Surface, k: int): (col: int)
    requires Covered(s, k)
  {
    (k % s.pitch) / s.format.bytesPerPixel
  }

  function LaneOf(s: Surface, k: int): (lane: int)
    requires Covered(s, k)
  {
    (k % s.pitch) % s.format.bytesPerPixel
  }

  /** A covered byte is byte `LaneOf` of pixel `(ColOf, RowOf)`. */
  lemma Locate(s: Surface, len: int, k: int)
    requires WellFormed(s, len) && Covered(s, k)
    ensures InImage(s, ColOf(s, k), RowOf(s, k))
    ensures 0 <= LaneOf(s, k) < Width(s.format.bytesPerPixel)
    ensures k == Offset(s, ColOf(s, k), RowOf(s, k)) + LaneOf(s, k)
    ensures InPixel(s, k, ColOf(s, k), RowOf(s, k))
  {
    var bpp := s.format.bytesPerPixel;
    var r := k % s.pitch;
    var x := r / bpp;
    DivModBounds(k, s.pitch);
    DivModBounds(r, bpp);
    DivBelow(r, bpp, s.w);
  }

  /** A byte of pixel `(x, y)` is covered and located at that pixel. */
  lemma LocateUnique(s: Surface, len: int, k: int, x: int, y: int)
    requires WellFormed(s, len) && InImage(s, x, y) && InPixel(s, k, x, y)
    ensures Covered(s, k) && ColOf(s, k) == x && RowOf(s, k) == y && LaneOf(s, k) == k - Offset(s, x, y)
  {
    var bpp := s.format.bytesPerPixel;
    var j := k - Offset(s, x, y);
    MulLeq(x + 1, s.w, bpp);
    MulLeq(0, x, bpp);
    MulLeq(0, y, s.pitch);
    assert (x + 1) * bpp == x * bpp + bpp;
    DivModUnique(k, s.pitch, y, x * bpp + j);
    DivModUnique(x * bpp + j, bpp, x, j);
    if y >= s.h {
      MulLeq(s.h, y, s.pitch);
    }
  }

  /** Every covered byte belongs to some pixel. */
  lemma CoveredInSomePixel(s: Surface, len: int, k: int)
    requires WellFormed(s, len)
    ensures Covered(s, k) ==> InSomePixel(s, k)
  {
    if Covered(s, k) {
      Locate(s, len, k);
    }
  }

  /** The new value of a covered byte: its lane of `f` applied to the bytes
      of its pixel. */
  function NewByte(bytes: seq<Byte>, s: Surface, f: seq<Byte> -> seq<Byte>, k: int): (b: Byte)
    requires WellFormed(s, |bytes|) && KeepsWidth(f, Width(s.format.bytesPerPixel)) && Covered(s, k)
  {
    Locate(s, |bytes|, k);
    f(PixelBytes(bytes, s, ColOf(s, k), RowOf(s, k)))[LaneOf(s, k)]
  }

  /** The buffer once the pixels before the cursor `(cx, cy)` have been
      visited: their bytes are `f` of their original bytes, every other byte
      is as it was. */
  function MapBefore(bytes: seq<Byte>, s: Surface, cx: int, cy: int, f: seq<Byte> -> seq<Byte>): (r: seq<Byte>)
    requires WellFormed(s, |bytes|) && KeepsWidth(f, Width(s.format.bytesPerPixel))
    ensures |r| == |bytes|
  {
    seq(|bytes|, k requires 0 <= k < |bytes| =>
      if Covered(s, k) && Before(ColOf(s, k), RowOf(s, k), cx, cy) then NewByte(bytes, s, f, k) else bytes[k])
  }

  /** The buffer once every pixel has been visited. */
  function MapAll(bytes: seq<Byte>, s: Surface, f: seq<Byte> -> seq<Byte>): (r: seq<Byte>)
    requires WellFormed(s, |bytes|) && KeepsWidth(f, Width(s.format.bytesPerPixel))
    ensures |r| == |bytes|
  {
    MapBefore(bytes, s, 0, s.h, f)
  }

  /** Byte `j` of pixel `(x, y)` after the pixels before the cursor were
      visited. */
  lemma MapBeforeAt(bytes: seq<Byte>, s: Surface, cx: int, cy: int, f: seq<Byte> -> seq<Byte>,
                    x: int, y: int, j: int)
    requires WellFormed(s, |bytes|) && KeepsWidth(f, Width(s.format.bytesPerPixel))
    requires InImage(s, x, y) && 0 <= j < Width(s.format.bytesPerPixel)
    ensures 0 <= Offset(s, x, y) + j < |bytes|
    ensures MapBefore(bytes, s, cx, cy, f)[Offset(s, x, y) + j]
         == if Before(x, y, cx, cy) then f(PixelBytes(bytes, s, x, y))[j] else bytes[Offset(s, x, y) + j]
  {
    PixelInBuffer(s, |bytes|, x, y);
    LocateUnique(s, |bytes|, Offset(s, x, y) + j, x, y);
  }

  /** Pixel `(x, y)` after the pixels before the cursor were visited: `f` of
      its original bytes if it is one of them, its original bytes otherwise. */
  lemma MapBeforePixel(bytes: seq<Byte>, s: Surface, cx: int, cy: int, f: seq<Byte> -> seq<Byte>, x: int, y: int)
    requires WellFormed(s, |bytes|) && KeepsWidth(f, Width(s.format.bytesPerPixel)) && InImage(s, x, y)
    ensures PixelBytes(MapBefore(bytes, s, cx, cy, f), s, x, y)
         == if Before(x, y, cx, cy) then f(PixelBytes(bytes, s, x, y)) else PixelBytes(bytes, s, x, y)
  {
    var r := MapBefore(bytes, s, cx, cy, f);
    var want := if Before(x, y, cx, cy) then f(PixelBytes(bytes, s, x, y)) else PixelBytes(bytes, s, x, y);
    var got := PixelBytes(r, s, x, y);
    forall j | 0 <= j < |got|
      ensures got[j] == want[j]
    {
      MapBeforeAt(bytes, s, cx, cy, f, x, y, j);
      PixelByteAt(r, s, x, y, j);
      PixelByteAt(bytes, s, x, y, j);
    }
  }

  /** Before the first pixel the buffer is untouched. */
  lemma MapBeforeStart(bytes: seq<Byte>, s: Surface, f: seq<Byte> -> seq<Byte>)
    requires WellFormed(s, |bytes|) && KeepsWidth(f, Width(s.format.bytesPerPixel))
    ensures MapBefore(bytes, s, 0, 0, f) == bytes
  {
    var r := MapBefore(bytes, s, 0, 0, f);
    forall k | 0 <= k < |bytes|
      ensures r[k] == bytes[k]
    {
      if Covered(s, k) {
        Locate(s, |bytes|, k);
      }
    }
  }

  /** The end of row `y` and the start of row `y + 1` are the same state. */
  lemma MapBeforeNextRow(bytes: seq<Byte>, s: Surface, y: int, f: seq<Byte> -> seq<Byte>)
    requires WellFormed(s, |bytes|) && KeepsWidth(f, Width(s.format.bytesPerPixel))
    ensures MapBefore(bytes, s, s.w, y, f) == MapBefore(bytes, s, 0, y + 1, f)
  {
    var a, b := MapBefore(bytes, s, s.w, y, f), MapBefore(bytes, s, 0, y + 1, f);
    forall k | 0 <= k < |bytes|
      ensures a[k] == b[k]
    {
      if Covered(s, k) {
        Locate(s, |bytes|, k);
      }
    }
  }

  /** A byte outside pixel `(x, y)` is the same whether the cursor is at
      `(x, y)` or one pixel on. */
  lemma MapBeforeStepElsewhere(bytes: seq<Byte>, s: Surface, x: int, y: int, f: seq<Byte> -> seq<Byte>, k: int)
    requires WellFormed(s, |bytes|) && KeepsWidth(f, Width(s.format.bytesPerPixel)) && InImage(s, x, y)
    requires 0 <= k < |bytes| && !InPixel(s, k, x, y)
    ensures MapBefore(bytes, s, x + 1, y, f)[k] == MapBefore(bytes, s, x, y, f)[k]
  {
    if Covered(s, k) {
      Locate(s, |bytes|, k);
    }
  }

  /** Visiting pixel `(x, y)` writes `f` of the bytes it holds, which are
      still its original bytes, and moves the cursor one pixel on. */
  lemma MapBeforeStep(bytes: seq<Byte>, s: Surface, x: int, y: int, f: seq<Byte> -> seq<Byte>)
    requires WellFormed(s, |bytes|) && KeepsWidth(f, Width(s.format.bytesPerPixel)) && InImage(s, x, y)
    ensures var prev := MapBefore(bytes, s, x, y, f);
      PixelBytes(prev, s, x, y) == PixelBytes(bytes, s, x, y) &&
      MapBefore(bytes, s, x + 1, y, f) == WritePixel(prev, s, x, y, f(PixelBytes(prev, s, x, y)))
  {
    var prev := MapBefore(bytes, s, x, y, f);
    MapBeforePixel(bytes, s, x, y, f, x, y);
    MapBeforePixel(bytes, s, x + 1, y, f, x, y);
    var out := f(PixelBytes(bytes, s, x, y));
    var a, b := MapBefore(bytes, s, x + 1, y, f), WritePixel(prev, s, x, y, out);
    assert PixelBytes(a, s, x, y) == PixelBytes(b, s, x, y);
    forall k | 0 <= k < |bytes|
      ensures a[k] == b[k]
    {
      if InPixel(s, k, x, y) {
        var j := k - Offset(s, x, y);
        PixelByteAt(a, s, x, y, j);
        PixelByteAt(b, s, x, y, j);
      } else {
        MapBeforeStepElsewhere(bytes, s, x, y, f, k);
      }
    }
  }

  /** After the whole scan every pixel holds `f` of its original bytes. */
  lemma MapAllPixel(bytes: seq<Byte>, s: Surface, f: seq<Byte> -> seq<Byte>, x: int, y: int)
    requires WellFormed(s, |bytes|) && KeepsWidth(f, Width(s.format.bytesPerPixel)) && InImage(s, x, y)
    ensures PixelBytes(MapAll(bytes, s, f), s, x, y) == f(PixelBytes(bytes, s, x, y))
  {
    MapBeforePixel(bytes, s, 0, s.h, f, x, y);
  }

  /** After the whole scan a byte of no pixel holds its original value. */
  lemma MapAllFrame(bytes: seq<Byte>, s: Surface, f: seq<Byte> -> seq<Byte>, k: int)
    requires WellFormed(s, |bytes|) && KeepsWidth(f, Width(s.format.bytesPerPixel))
    requires 0 <= k < |bytes| && !InSomePixel(s, k)
    ensures MapAll(bytes, s, f)[k] == bytes[k]
  {
    CoveredInSomePixel(s, |bytes|, k);
  }

  /** A scan whose `f` gives every pixel its own bytes back changes nothing. */
  lemma MapAllFixed(bytes: seq<Byte>, s: Surface, f: seq<Byte> -> seq<Byte>)
    requires WellFormed(s, |bytes|) && KeepsWidth(f, Width(s.format.bytesPerPixel))
    requires forall x, y :: InImage(s, x, y) ==> f(PixelBytes(bytes, s, x, y)) == PixelBytes(bytes, s, x, y)
    ensures MapAll(bytes, s, f) == bytes
  {
    var r := MapAll(bytes, s, f);
    forall k | 0 <= k < |bytes|
      ensures r[k] == bytes[k]
    {
      if Covered(s, k) {
        Locate(s, |bytes|, k);
        MapBeforeAt(bytes, s, 0, s.h, f, ColOf(s, k), RowOf(s, k), LaneOf(s, k));
        PixelByteAt(bytes, s, ColOf(s, k), RowOf(s, k), LaneOf(s, k));
      }
    }
  }

  /** Stores `out` as the bytes of pixel `(x, y)`, one byte at a time. */
  method StorePixel(pixels: array<Byte>, s: Surface, x: int, y: int, out: seq<Byte>)
    requires WellFormed(s, pixels.Length) && InImage(s, x, y)
    requires |out| == Width(s.format.bytesPerPixel)
    modifies pixels
    ensures pixels[..] == WritePixel(old(pixels[..]), s, x, y, out)
  {
    ghost var want := WritePixel(pixels[..], s, x, y, out);
    var n := |out|;
    if n > 0 {
      PixelInBuffer(s, pixels.Length, x, y);
      var p := y * s.pitch + x * s.format.bytesPerPixel;
      forall j | 0 <= j < n {
        pixels[p + j] := out[j];
      }
      forall k | 0 <= k < pixels.Length
        ensures pixels[k] == want[k]
      {
        if InPixel(s, k, x, y) {
          PixelByteAt(want, s, x, y, k - p);
        }
      }
    }
    assert pixels[..] == want;
  }
}
