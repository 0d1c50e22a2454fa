/** The hit test of the rounded buttons: a point is on the button when it is
    in one of the two bands that make up the rectangle's central cross, or
    within `radius` of one of the four corner centres. */
module HitTest {
  import opened Pixels

  /** An `SDL_Rect`: top-left corner, width and height. */
  datatype Rect = Rect(x: int, y: int, w: int, h: int)

  /** `(px, py)` lies in the closed disc of the given radius around
      `(cx, cy)`. */
  predicate InDisc(px: int, py: int, cx: int, cy: int, radius: int)
  {
    (px - cx) * (px - cx) + (py - cy) * (py - cy) <= radius * radius
  }

  /** `isPointInRoundedRect`: the horizontal band, then the vertical band,
      then the discs around the top-left, top-right, bottom-left and
      bottom-right corner centres, all with inclusive bounds. */
  function IsPointInRoundedRect(x: int, y: int, rect: Rect, radius: int): (hit: int)
    ensures hit == 0 || hit == 1
  {
    var left, right := rect.x + radius, rect.x + rect.w - radius;
    var top, bottom := rect.y + radius, rect.y + rect.h - radius;
    if left <= x <= right && rect.y <= y <= rect.y + rect.h then 1
    else if top <= y <= bottom && rect.x <= x <= rect.x + rect.w then 1
    else if InDisc(x, y, left, top, radius) then 1
    else if InDisc(x, y, right, top, radius) then 1
    else if InDisc(x, y, left, bottom, radius) then 1
    else if InDisc(x, y, right, bottom, radius) then 1
    else 0
  }

  /** The radius fits the button: at most half of each side. */
  predicate Fits(rect: Rect, radius: int)
  {
    0 <= radius && 2 * radius <= rect.w && 2 * radius <= rect.h
  }

  function Clamp(v: int, lo: int, hi: int): (c: int)
    requires lo <= hi
    ensures lo <= c <= hi
    ensures v < lo ==> c == lo
    ensures v > hi ==> c == hi
    ensures lo <= v <= hi ==> c == v
  {
    if v < lo then lo else if v > hi then hi else v
  }

  /** Squared distance from `(x, y)` to the core rectangle, the rectangle
      shrunk by `radius` on every side. */
  function SqDistToCore(x: int, y: int, rect: Rect, radius: int): (d: int)
    requires Fits(rect, radius)
    ensures d >= 0
  {
    var dx := x - Clamp(x, rect.x + radius, rect.x + rect.w - radius);
    var dy := y - Clamp(y, rect.y + radius, rect.y + rect.h - radius);
    SquareNonNegative(dx);
    SquareNonNegative(dy);
    dx * dx + dy * dy
  }

  lemma SquareNonNegative(a: int)
    ensures a * a >= 0
  {
    if a < 0 {
      MulLeq(a, 0, -a);
    }
  }

  /** Squares grow with the absolute value. */
  lemma SquareMono(a: int, b: int)
    requires (if a < 0 then -a else a) <= (if b < 0 then -b else b)
    ensures a * a <= b * b
  {
    var m, n := (if a < 0 then -a else a), (if b < 0 then -b else b);
    assert a * a == m * m && b * b == n * n;
    MulLeq(m, n, m);
    MulLeq(m, n, n);
  }

  /** A square no larger than `r * r` bounds the value by `r`. */
  lemma SquareBounds(a: int, r: int)
    requires 0 <= r && a * a <= r * r
    ensures -r <= a <= r
  {
    var m := if a < 0 then -a else a;
    assert a * a == m * m;
    if m > r {
      MulLeq(r + 1, m, m);
      MulLeq(r, m, r + 1);
    }
  }

  /** Clamping to `[lo, hi]` moves `v` no further than any point of the
      interval is from it. */
  lemma ClampIsClosest(v: int, lo: int, hi: int, o: int)
    requires lo <= o <= hi
    ensures (v - Clamp(v, lo, hi)) * (v - Clamp(v, lo, hi)) <= (v - o) * (v - o)
  {
    SquareMono(v - Clamp(v, lo, hi), v - o);
  }

  /** A value within `r` of the interval is clamped by at most `r`. */
  lemma ClampWithin(v: int, lo: int, hi: int, r: int)
    requires lo <= hi && 0 <= r && lo - r <= v <= hi + r
    ensures (v - Clamp(v, lo, hi)) * (v - Clamp(v, lo, hi)) <= r * r
  {
    SquareMono(v - Clamp(v, lo, hi), r);
  }

  /** A value clamped by at most `r` lies within `r` of the interval. */
  lemma ClampBounds(v: int, lo: int, hi: int, r: int)
    requires lo <= hi && 0 <= r
    requires (v - Clamp(v, lo, hi)) * (v - Clamp(v, lo, hi)) <= r * r
    ensures lo - r <= v <= hi + r
  {
    SquareBounds(v - Clamp(v, lo, hi), r);
  }

  /** A point in the disc around a corner of the core is within `radius`
      of the core. */
  lemma DiscIsNearCore(x: int, y: int, rect: Rect, radius: int, ox: int, oy: int)
    requires Fits(rect, radius)
    requires rect.x + radius <= ox <= rect.x + rect.w - radius
    requires rect.y + radius <= oy <= rect.y + rect.h - radius
    requires InDisc(x, y, ox, oy, radius)
    ensures SqDistToCore(x, y, rect, radius) <= radius * radius
  {
    ClampIsClosest(x, rect.x + radius, rect.x + rect.w - radius, ox);
    ClampIsClosest(y, rect.y + radius, rect.y + rect.h - radius, oy);
  }

  /** A point in either band of the cross is within `radius` of the core. */
  lemma BandIsNearCore(x: int, y: int, rect: Rect, radius: int)
    requires Fits(rect, radius)
    requires (rect.x + radius <= x <= rect.x + rect.w - radius && rect.y <= y <= rect.y + rect.h)
          || (rect.y + radius <= y <= rect.y + rect.h - radius && rect.x <= x <= rect.x + rect.w)
    ensures SqDistToCore(x, y, rect, radius) <= radius * radius
  {
    var left, right := rect.x + radius, rect.x + rect.w - radius;
    var top, bottom := rect.y + radius, rect.y + rect.h - radius;
    if left <= x <= right && rect.y <= y <= rect.y + rect.h {
      ClampWithin(y, top, bottom, radius);
    } else {
      ClampWithin(x, left, right, radius);
    }
  }

  /** Every point the test accepts is within `radius` of the core. */
  lemma HitIsNearCore(x: int, y: int, rect: Rect, radius: int)
    requires Fits(rect, radius) && IsPointInRoundedRect(x, y, rect, radius) == 1
    ensures SqDistToCore(x, y, rect, radius) <= radius * radius
  {
    var left, right := rect.x + radius, rect.x + rect.w - radius;
    var top, bottom := rect.y + radius, rect.y + rect.h - radius;
    if (left <= x <= right && rect.y <= y <= rect.y + rect.h)
      || (top <= y <= bottom && rect.x <= x <= rect.x + rect.w) {
      BandIsNearCore(x, y, rect, radius);
    } else if InDisc(x, y, left, top, radius) {
      DiscIsNearCore(x, y, rect, radius, left, top);
    } else if InDisc(x, y, right, top, radius) {
      DiscIsNearCore(x, y, rect, radius, right, top);
    } else if InDisc(x, y, left, bottom, radius) {
      DiscIsNearCore(x, y, rect, radius, left, bottom);
    } else {
      DiscIsNearCore(x, y, rect, radius, right, bottom);
    }
  }

  /** Every point within `radius` of the core is accepted. */
  lemma NearCoreIsHit(x: int, y: int, rect: Rect, radius: int)
    requires Fits(rect, radius) && SqDistToCore(x, y, rect, radius) <= radius * radius
    ensures IsPointInRoundedRect(x, y, rect, radius) == 1
  {
    var left, right := rect.x + radius, rect.x + rect.w - radius;
    var top, bottom := rect.y + radius, rect.y + rect.h - radius;
    var cx, cy := Clamp(x, left, right), Clamp(y, top, bottom);
    SquareNonNegative(x - cx);
    SquareNonNegative(y - cy);
    if x == cx {
      ClampBounds(y, top, bottom, radius);
      assert left <= x <= right && rect.y <= y <= rect.y + rect.h;
    } else if y == cy {
      ClampBounds(x, left, right, radius);
      assert top <= y <= bottom && rect.x <= x <= rect.x + rect.w;
    } else {
      assert InDisc(x, y, cx, cy, radius);
      assert cx == left || cx == right;
      assert cy == top || cy == bottom;
    }
  }

  /** When the radius fits, the button is exactly the set of points within
      `radius` of its core rectangle. */
  lemma RoundedRectIsNearCore(x: int, y: int, rect: Rect, radius: int)
    requires Fits(rect, radius)
    ensures IsPointInRoundedRect(x, y, rect, radius) == 1 <==> SqDistToCore(x, y, rect, radius) <= radius * radius
  {
    if IsPointInRoundedRect(x, y, rect, radius) == 1 {
      HitIsNearCore(x, y, rect, radius);
    }
    if SqDistToCore(x, y, rect, radius) <= radius * radius {
      NearCoreIsHit(x, y, rect, radius);
    }
  }

  /** When the radius fits, every hit lies in the button's closed bounding
      box. */
  lemma HitInsideBox(x: int, y: int, rect: Rect, radius: int)
    requires Fits(rect, radius) && IsPointInRoundedRect(x, y, rect, radius) == 1
    ensures rect.x <= x <= rect.x + rect.w && rect.y <= y <= rect.y + rect.h
  {
    HitIsNearCore(x, y, rect, radius);
    var dx := x - Clamp(x, rect.x + radius, rect.x + rect.w - radius);
    var dy := y - Clamp(y, rect.y + radius, rect.y + rect.h - radius);
    SquareNonNegative(dx);
    SquareNonNegative(dy);
    ClampBounds(x, rect.x + radius, rect.x + rect.w - radius, radius);
    ClampBounds(y, rect.y + radius, rect.y + rect.h - radius, radius);
  }

  /** With a positive radius that fits, the sharp top-left corner of the
      rectangle is not on the button. */
  lemma CornerIsCut(rect: Rect, radius: int)
    requires Fits(rect, radius) && radius > 0
    ensures IsPointInRoundedRect(rect.x, rect.y, rect, radius) == 0
  {
    RoundedRectIsNearCore(rect.x, rect.y, rect, radius);
    MulLeq(1, 2, radius * radius);
    assert radius * radius > 0 by {
      MulLeq(1, radius, radius);
    }
  }

  /** The test is symmetric under reflection in the button's vertical
      axis. */
  lemma MirrorSymmetric(x: int, y: int, rect: Rect, radius: int)
    ensures IsPointInRoundedRect(2 * rect.x + rect.w - x, y, rect, radius) == IsPointInRoundedRect(x, y, rect, radius)
  {
    var x' := 2 * rect.x + rect.w - x;
    var left, right := rect.x + radius, rect.x + rect.w - radius;
    assert (x' - left) * (x' - left) == (x - right) * (x - right) by {
      assert x' - left == -(x - right);
    }
    assert (x' - right) * (x' - right) == (x - left) * (x - left) by {
      assert x' - right == -(x - left);
    }
  }

  /** The test is symmetric under reflection in the button's horizontal
      axis. */
  lemma FlipSymmetric(x: int, y: int, rect: Rect, radius: int)
    ensures IsPointInRoundedRect(x, 2 * rect.y + rect.h - y, rect, radius) == IsPointInRoundedRect(x, y, rect, radius)
  {
    var y' := 2 * rect.y + rect.h - y;
    var top, bottom := rect.y + radius, rect.y + rect.h - radius;
    assert (y' - top) * (y' - top) == (y - bottom) * (y - bottom) by {
      assert y' - top == -(y - bottom);
    }
    assert (y' - bottom) * (y' - bottom) == (y - top) * (y - top) by {
      assert y' - bottom == -(y - top);
    }
  }

  /** With radius 0 the button is the closed rectangle. */
  lemma ZeroRadiusIsRectangle(x: int, y: int, rect: Rect)
    requires 0 <= rect.w && 0 <= rect.h
    ensures IsPointInRoundedRect(x, y, rect, 0) == 1 <==>
      rect.x <= x <= rect.x + rect.w && rect.y <= y <= rect.y + rect.h
  {
    if IsPointInRoundedRect(x, y, rect, 0) == 1 {
      HitInsideBox(x, y, rect, 0);
    }
  }
}
