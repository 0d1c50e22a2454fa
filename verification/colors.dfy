/** Colours and the nearest-colour search of the palette remapper. */
module Colors {
  import opened Pixels

  /** Four independent 8-bit channels; only red, green and blue take part in
      matching, alpha is carried along. */
  datatype Color = Color(r: Byte, g: Byte, b: Byte, a: Byte)

  /** The seed of the running minimum: three channels, each at most 255
      apart. */
  const MaxSqDist: nat := 255 * 255 * 3

  predicate SameRgb(p: Color, q: Color)
  {
    p.r == q.r && p.g == q.g && p.b == q.b
  }

  /** Squared Euclidean distance of the red, green and blue channels; it is
      zero exactly for colours that agree on all three. */
  function SqDist(p: Color, q: Color): (d: nat)
    ensures d == 0 <==> SameRgb(p, q)
  {
    var dr, dg, db := p.r - q.r, p.g - q.g, p.b - q.b;
    assert dr * dr >= 0 && dg * dg >= 0 && db * db >= 0;
    assert dr != 0 ==> dr * dr > 0;
    assert dg != 0 ==> dg * dg > 0;
    assert db != 0 ==> db * db > 0;
    dr * dr + dg * dg + db * db
  }

  /** `ps[k]` is at least as close to `c` as every entry of `ps`. */
  predicate IsNearest(ps: seq<Color>, c: Color, k: int)
  {
    0 <= k < |ps| && forall j :: 0 <= j < |ps| ==> SqDist(ps[k], c) <= SqDist(ps[j], c)
  }

  /** `k` is the lowest index among the entries nearest to `c`. */
  predicate IsFirstNearest(ps: seq<Color>, c: Color, k: int)
  {
    IsNearest(ps, c, k) && forall j :: 0 <= j < k ==> SqDist(ps[k], c) < SqDist(ps[j], c)
  }

  lemma SquareBound(d: int)
    requires -255 <= d <= 255
    ensures d * d <= 255 * 255
  {
    var m := if d < 0 then -d else d;
    assert d * d == m * m;
    MulLeq(m, 255, m);
    MulLeq(m, 255, 255);
  }

  /** No pair of colours is further apart than the seed, so the seed can
      never be kept in place of a real entry. */
  lemma SeedBoundsDistance(p: Color, q: Color)
    ensures SqDist(p, q) <= MaxSqDist
  {
    SquareBound(p.r - q.r);
    SquareBound(p.g - q.g);
    SquareBound(p.b - q.b);
  }

  /** The first nearest entry, computed the way the scan finds it: extend
      the answer for all but the last entry, and move to the last entry only
      when it is strictly closer. */
  function FirstNearest(ps: seq<Color>, c: Color): (k: nat)
    ensures |ps| == 0 ==> k == 0
    ensures |ps| > 0 ==> IsFirstNearest(ps, c, k)
  {
    if |ps| <= 1 then 0
    else
      var k := FirstNearest(ps[..|ps| - 1], c);
      if SqDist(ps[|ps| - 1], c) < SqDist(ps[k], c) then |ps| - 1 else k
  }

  /** There is only one first nearest entry. */
  lemma FirstNearestUnique(ps: seq<Color>, c: Color, i: int, j: int)
    requires IsFirstNearest(ps, c, i) && IsFirstNearest(ps, c, j)
    ensures i == j
  {
    if i < j {
      FirstIsStrictlyCloser(ps, c, j, i);
      NearestIsNoFurther(ps, c, i, j);
    } else if j < i {
      FirstIsStrictlyCloser(ps, c, i, j);
      NearestIsNoFurther(ps, c, j, i);
    }
  }

  lemma FirstIsStrictlyCloser(ps: seq<Color>, c: Color, k: int, j: int)
    requires IsFirstNearest(ps, c, k) && 0 <= j < k
    ensures SqDist(ps[k], c) < SqDist(ps[j], c)
  {
  }

  lemma NearestIsNoFurther(ps: seq<Color>, c: Color, k: int, j: int)
    requires IsNearest(ps, c, k) && 0 <= j < |ps|
    ensures SqDist(ps[k], c) <= SqDist(ps[j], c)
  {
  }

  /** Alpha never enters the search: queries that differ only in alpha get
      the same answer. */
  lemma SqDistIgnoresAlpha(p: Color, c: Color, alpha: Byte)
    ensures SqDist(p, c.(a := alpha)) == SqDist(p, c)
  {
  }

  lemma FirstNearestIgnoresAlpha(ps: seq<Color>, c: Color, alpha: Byte)
    ensures FirstNearest(ps, c.(a := alpha)) == FirstNearest(ps, c)
  {
    var c' := c.(a := alpha);
    if |ps| > 0 {
      var k, k' := FirstNearest(ps, c), FirstNearest(ps, c');
      forall j | 0 <= j < |ps|
        ensures SqDist(ps[j], c') == SqDist(ps[j], c)
      {
        SqDistIgnoresAlpha(ps[j], c, alpha);
      }
      assert IsFirstNearest(ps, c, k');
      FirstNearestUnique(ps, c, k, k');
    }
  }

  /** When some entry carries the query's red, green and blue, the answer
      carries them too. */
  lemma ExactMatchWins(ps: seq<Color>, c: Color, j: int)
    requires 0 <= j < |ps| && SameRgb(ps[j], c)
    ensures SameRgb(ps[FirstNearest(ps, c)], c)
  {
  }

  /** The candidates the search looks at: the first `paletteSize` entries,
      none when the size is not positive. */
  function Candidates(palette: seq<Color>, paletteSize: int): (cs: seq<Color>)
    requires paletteSize <= |palette|
    ensures |cs| == if paletteSize <= 0 then 0 else paletteSize
    ensures forall j :: 0 <= j < |cs| ==> cs[j] == palette[j]
  {
    if paletteSize <= 0 then [] else palette[..paletteSize]
  }

  /** The index `findClosestColor` returns: the first nearest among the
      candidates, and 0 when there are none. */
  function ClosestIndex(palette: seq<Color>, paletteSize: int, c: Color): (k: nat)
    requires paletteSize <= |palette|
    ensures paletteSize <= 0 ==> k == 0
    ensures paletteSize > 0 ==> k < paletteSize && IsFirstNearest(palette[..paletteSize], c, k)
  {
    FirstNearest(Candidates(palette, paletteSize), c)
  }

  /** The linear scan of the source: a running minimum seeded with
      `MaxSqDist`, replaced only on a strictly smaller distance, so the first
      minimal entry wins and an empty palette yields index 0. */
  method FindClosestColor(palette: seq<Color>, paletteSize: int, color: Color)
    returns (closestIndex: int)
    requires paletteSize <= |palette|
    ensures paletteSize <= 0 ==> closestIndex == 0
    ensures paletteSize > 0 ==> IsFirstNearest(palette[..paletteSize], color, closestIndex)
  {
    closestIndex := 0;
    var minDistance := MaxSqDist;
    var i := 0;
    while i < paletteSize
      invariant 0 <= i <= (if paletteSize < 0 then 0 else paletteSize)
      invariant i == 0 ==> closestIndex == 0 && minDistance == MaxSqDist
      invariant i > 0 ==> 0 <= closestIndex < i && minDistance == SqDist(palette[closestIndex], color)
      invariant forall j :: 0 <= j < i ==> minDistance <= SqDist(palette[j], color)
      invariant forall j :: 0 <= j < closestIndex ==> minDistance < SqDist(palette[j], color)
    {
      var distance := SqDist(palette[i], color);
      SeedBoundsDistance(palette[i], color);
      if distance < minDistance {
        minDistance := distance;
        closestIndex := i;
      }
      i := i + 1;
    }
  }

  /** The scan and the recursive definition agree on every input. */
  lemma FindClosestColorAgrees(palette: seq<Color>, paletteSize: int, color: Color, k: int)
    requires paletteSize <= |palette|
    requires paletteSize <= 0 ==> k == 0
    requires paletteSize > 0 ==> IsFirstNearest(palette[..paletteSize], color, k)
    ensures k == ClosestIndex(palette, paletteSize, color)
  {
    if paletteSize > 0 {
      FirstNearestUnique(palette[..paletteSize], color, k, ClosestIndex(palette, paletteSize, color));
    }
  }
}
