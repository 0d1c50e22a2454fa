/** Pixel accessor: how a pixel's sample is assembled from, and scattered back
    into, the bytes of a surface, for 1, 2, 3 and 4 bytes per pixel and both
    byte orders. Shifts and bitwise ors of non-overlapping byte lanes are
    written as multiplications and sums; `>> k & 0xff` as a division and a
    remainder. */
module Pixels {

  /** An 8-bit unsigned value (C `Uint8`). */
  type Byte = x: int | 0 <= x < 0x100

  /** A 32-bit unsigned value (C `Uint32`). */
  type Word = x: int | 0 <= x < 0x1_0000_0000

  /** The platform byte order (`SDL_BYTEORDER`), which also governs the native
      16- and 32-bit loads and stores through `Uint16*` and `Uint32*`. */
  datatype ByteOrder = LittleEndian | BigEndian

  function Pow256(n: nat): (p: nat)
    ensures p >= 1
  {
    if n == 0 then 1 else 0x100 * Pow256(n - 1)
  }

  /** Value of bytes stored least significant first. */
  function LoadLE(bs: seq<Byte>): (v: nat)
    ensures v < Pow256(|bs|)
  {
    if |bs| == 0 then 0 else bs[0] + 0x100 * LoadLE(bs[1..])
  }

  /** Value of bytes stored most significant first. */
  function LoadBE(bs: seq<Byte>): (v: nat)
    ensures v < Pow256(|bs|)
  {
    if |bs| == 0 then 0 else 0x100 * LoadBE(bs[..|bs| - 1]) + bs[|bs| - 1]
  }

  /** The low `n` bytes of `v`, least significant first. */
  function StoreLE(v: nat, n: nat): (bs: seq<Byte>)
    ensures |bs| == n
  {
    if n == 0 then [] else [v % 0x100] + StoreLE(v / 0x100, n - 1)
  }

  /** The low `n` bytes of `v`, most significant first. */
  function StoreBE(v: nat, n: nat): (bs: seq<Byte>)
    ensures |bs| == n
  {
    if n == 0 then [] else StoreBE(v / 0x100, n - 1) + [v % 0x100]
  }

  /** A native load of `|bs|` bytes (`*(Uint16*)p`, `*(Uint32*)p`). */
  function LoadNative(bs: seq<Byte>, order: ByteOrder): (v: nat)
    ensures v < Pow256(|bs|)
  {
    match order
    case LittleEndian => LoadLE(bs)
    case BigEndian => LoadBE(bs)
  }

  /** A native store of the low `n` bytes of `v`. */
  function StoreNative(v: nat, n: nat, order: ByteOrder): (bs: seq<Byte>)
    ensures |bs| == n
  {
    match order
    case LittleEndian => StoreLE(v, n)
    case BigEndian => StoreBE(v, n)
  }

  /** Number of bytes a pixel access touches: `BytesPerPixel` when it is one
      of the four handled cases, and none otherwise (both switches fall
      through without touching memory). */
  function Width(bpp: int): (n: nat)
    ensures n <= 4
  {
    if 1 <= bpp <= 4 then bpp else 0
  }

  /** How many samples a pixel of `bpp` bytes can hold: one (the sample 0)
      for a depth the core does not handle. */
  function Samples(bpp: int): (n: nat)
    ensures n == Pow256(Width(bpp)) && 1 <= n <= 0x1_0000_0000
  {
    var w := Width(bpp);
    assert Pow256(4) == 0x1_0000_0000;
    assert w == 0 || w == 1 || w == 2 || w == 3 || w == 4;
    Pow256(w)
  }

  /** The sample assembled from one pixel's bytes `px` (the read switch of
      the remapper). An unhandled depth yields the sample 0. */
  function LoadSample(px: seq<Byte>, bpp: int, order: ByteOrder): (v: Word)
    requires |px| == Width(bpp)
    ensures v < Pow256(Width(bpp))
  {
    match bpp
    case 1 => px[0]
    case 2 => LoadNative(px, order)
    case 3 =>
      var p0, p1, p2 := px[0] as int, px[1] as int, px[2] as int;
      if order == BigEndian then p0 * 0x1_0000 + p1 * 0x100 + p2
      else p0 + p1 * 0x100 + p2 * 0x1_0000
    case 4 => assert Pow256(4) == 0x1_0000_0000; LoadNative(px, order)
    case _ => 0
  }

  /** The bytes the write switch of the remapper stores for `sample`: the
      conversion to `Uint8` or `Uint16` keeps the low bytes; an unhandled
      depth stores nothing. */
  function StoreSample(sample: Word, bpp: int, order: ByteOrder): (px: seq<Byte>)
    ensures |px| == Width(bpp)
  {
    match bpp
    case 1 => [sample % 0x100]
    case 2 => StoreNative(sample % 0x1_0000, 2, order)
    case 3 =>
      if order == BigEndian then
        [(sample / 0x1_0000) % 0x100, (sample / 0x100) % 0x100, sample % 0x100]
      else
        [sample % 0x100, (sample / 0x100) % 0x100, (sample / 0x1_0000) % 0x100]
    case 4 => StoreNative(sample, 4, order)
    case _ => []
  }

  /** Splitting `v` by `q * m + r` with `0 <= r < m` determines its Euclidean
      quotient and remainder. */
  lemma DivModUnique(v: int, m: int, q: int, r: int)
    requires 0 < m && 0 <= r < m && v == q * m + r
    ensures v / m == q && v % m == r
  {
    var q' := v / m;
    var r' := v % m;
    assert v == q' * m + r';
    assert (q - q') * m == r' - r;
    if q > q' {
      MulAtLeast(q - q', m);
    } else if q < q' {
      MulAtLeast(q' - q, m);
    }
  }

  lemma MulLeq(a: int, b: int, m: int)
    requires a <= b && 0 <= m
    ensures a * m <= b * m
  {
  }

  /** Euclidean division of a non-negative value by a positive one. */
  lemma DivModBounds(v: int, m: int)
    requires 0 <= v && 0 < m
    ensures 0 <= v / m && 0 <= v % m < m && v == (v / m) * m + v % m
  {
  }

  /** A quotient of a value below `n * b` is below `n`. */
  lemma DivBelow(r: int, b: int, n: int)
    requires 0 < b && 0 <= r < n * b
    ensures 0 <= r / b < n
  {
    DivModUnique(r, b, r / b, r % b);
    if r / b >= n {
      MulLeq(n, r / b, b);
    }
  }

  lemma MulAtLeast(k: int, m: int)
    requires k >= 1 && m > 0
    ensures k * m >= m
  {
  }

  /** `s` holds distinct values below `m`, so it has at most `m` of them. */
  lemma {:induction false} Pigeonhole(s: seq<int>, m: nat)
    requires forall i :: 0 <= i < |s| ==> 0 <= s[i] < m
    requires forall i, j :: 0 <= i < j < |s| ==> s[i] != s[j]
    ensures |s| <= m
    decreases m
  {
    if |s| == 0 {
    } else if k :| 0 <= k < |s| && s[k] == m - 1 {
      var rest := s[..k] + s[k + 1..];
      assert forall i :: 0 <= i < |rest| ==> rest[i] == if i < k then s[i] else s[i + 1];
      Pigeonhole(rest, m - 1);
    } else {
      assert 0 <= s[0] < m;
      Pigeonhole(s, m - 1);
    }
  }

  /** Remainder by `0x100 * p` in terms of the low byte and the rest. */
  lemma ModSplit(v: nat, p: nat)
    requires p >= 1
    ensures v % (0x100 * p) == v % 0x100 + 0x100 * ((v / 0x100) % p)
  {
    var q := v / 0x100;
    assert q == (q / p) * p + q % p;
    assert v == (q / p) * (0x100 * p) + (v % 0x100 + 0x100 * (q % p));
    DivModUnique(v, 0x100 * p, q / p, v % 0x100 + 0x100 * (q % p));
  }

  lemma DivDiv256(v: nat)
    ensures v / 0x100 / 0x100 == v / 0x1_0000
  {
    var q := v / 0x100;
    assert v == (q / 0x100) * 0x1_0000 + (0x100 * (q % 0x100) + v % 0x100);
    DivModUnique(v, 0x1_0000, q / 0x100, 0x100 * (q % 0x100) + v % 0x100);
  }

  /** Storing `n` bytes little-endian and loading them back keeps exactly the
      low `n` bytes of the value. */
  lemma {:induction false} LoadStoreLE(v: nat, n: nat)
    ensures LoadLE(StoreLE(v, n)) == v % Pow256(n)
  {
    if n > 0 {
      var bs := StoreLE(v, n);
      assert bs[1..] == StoreLE(v / 0x100, n - 1);
      LoadStoreLE(v / 0x100, n - 1);
      ModSplit(v, Pow256(n - 1));
    }
  }

  /** Storing `n` bytes big-endian and loading them back keeps exactly the
      low `n` bytes of the value. */
  lemma {:induction false} LoadStoreBE(v: nat, n: nat)
    ensures LoadBE(StoreBE(v, n)) == v % Pow256(n)
  {
    if n > 0 {
      var bs := StoreBE(v, n);
      assert bs[..n - 1] == StoreBE(v / 0x100, n - 1);
      LoadStoreBE(v / 0x100, n - 1);
      ModSplit(v, Pow256(n - 1));
    }
  }

  /** Loading bytes little-endian and storing the value back rewrites the
      same bytes. */
  lemma {:induction false} StoreLoadLE(bs: seq<Byte>)
    ensures StoreLE(LoadLE(bs), |bs|) == bs
  {
    if |bs| > 0 {
      var rest := LoadLE(bs[1..]);
      DivModUnique(LoadLE(bs), 0x100, rest, bs[0]);
      StoreLoadLE(bs[1..]);
    }
  }

  /** Loading bytes big-endian and storing the value back rewrites the same
      bytes. */
  lemma {:induction false} StoreLoadBE(bs: seq<Byte>)
    ensures StoreBE(LoadBE(bs), |bs|) == bs
  {
    if |bs| > 0 {
      var init := bs[..|bs| - 1];
      DivModUnique(LoadBE(bs), 0x100, LoadBE(init), bs[|bs| - 1]);
      StoreLoadBE(init);
      assert bs == init + [bs[|bs| - 1]];
    }
  }

  lemma LoadStoreNative(v: nat, n: nat, order: ByteOrder)
    ensures LoadNative(StoreNative(v, n, order), order) == v % Pow256(n)
  {
    match order
    case LittleEndian => LoadStoreLE(v, n);
    case BigEndian => LoadStoreBE(v, n);
  }

  lemma StoreLoadNative(bs: seq<Byte>, order: ByteOrder)
    ensures StoreNative(LoadNative(bs, order), |bs|, order) == bs
  {
    match order
    case LittleEndian => StoreLoadLE(bs);
    case BigEndian => StoreLoadBE(bs);
  }

  /** The explicit 3-byte branch of both switches picks the layout that
      matches the platform byte order: it assembles and scatters exactly as a
      native 3-byte load and store would. */
  lemma ThreeByteBranchIsNative(px: seq<Byte>, sample: Word, order: ByteOrder)
    requires |px| == 3
    ensures LoadSample(px, 3, order) == LoadNative(px, order)
    ensures StoreSample(sample, 3, order) == StoreNative(sample, 3, order)
  {
    DivDiv256(sample);
    match order
    case LittleEndian =>
      assert px[1..][1..] == [px[2]];
      assert [px[2]][1..] == [];
      assert LoadLE(px[1..][1..]) == px[2];
      assert LoadLE(px[1..]) == px[1] as int + 0x100 * (px[2] as int);
      var bs := StoreLE(sample, 3);
      assert bs[1..] == StoreLE(sample / 0x100, 2);
      assert bs[1..][1..] == StoreLE(sample / 0x100 / 0x100, 1);
    case BigEndian =>
      assert px[..2][..1] == [px[0]];
      assert [px[0]][..0] == [];
      assert LoadBE(px[..2][..1]) == px[0];
      assert LoadBE(px[..2]) == 0x100 * (px[0] as int) + px[1] as int;
      var bs := StoreBE(sample, 3);
      assert bs[..2] == StoreBE(sample / 0x100, 2);
      assert bs[..2][..1] == StoreBE(sample / 0x100 / 0x100, 1);
  }

  /** Scattering a sample into a pixel's bytes and assembling it again with
      the matching branch yields the sample truncated to the pixel's depth
      (for three bytes: `mappedPixel & 0xFFFFFF`), for every handled depth and
      both byte orders. */
  lemma SampleRoundTrip(sample: Word, bpp: int, order: ByteOrder)
    requires 1 <= bpp <= 4
    ensures LoadSample(StoreSample(sample, bpp, order), bpp, order) == sample % Pow256(bpp)
  {
    if bpp == 1 {
      assert Pow256(1) == 0x100;
    } else if bpp == 2 {
      assert Pow256(2) == 0x1_0000;
      LoadStoreNative(sample % 0x1_0000, 2, order);
      DivModUnique(sample % 0x1_0000, 0x1_0000, 0, sample % 0x1_0000);
    } else if bpp == 3 {
      ThreeByteBranchIsNative(StoreSample(sample, 3, order), sample, order);
      LoadStoreNative(sample, 3, order);
    } else {
      LoadStoreNative(sample, 4, order);
    }
  }

  /** Assembling a pixel's bytes into a sample and scattering the sample back
      rewrites exactly the bytes that were there, for every depth and both
      byte orders. */
  lemma PixelBytesRoundTrip(px: seq<Byte>, bpp: int, order: ByteOrder)
    requires |px| == Width(bpp)
    ensures StoreSample(LoadSample(px, bpp, order), bpp, order) == px
  {
    var v := LoadSample(px, bpp, order);
    if bpp == 2 {
      StoreLoadNative(px, order);
    } else if bpp == 3 {
      ThreeByteBranchIsNative(px, v, order);
      StoreLoadNative(px, order);
    } else if bpp == 4 {
      StoreLoadNative(px, order);
    }
  }
}
