/** Drawing lines and filling rectangles in a pixel buffer. */
module Graphics {
  import opened Prelude
  import opened Bits

  /** Division as Rust does it, toward zero. */
  function TruncDiv(a: int, b: int): int
    requires b > 0
  {
    if a >= 0 then a / b else -((-a) / b)
  }

  /** `calc_slope_point`: the minor coordinate at `ia` of a line that covers `da` on the major axis and `db` on the
      minor. */
  function SlopePoint(da: int, db: int, ia: int): Option<int>
  {
    if da < db then None
    else if da == 0 then Some(0)
    else if 0 <= ia <= da then Some(TruncDiv(TruncDiv(2 * db * ia + da, da), 2))
    else None
  }

  /** The same for the arguments `draw_line` passes. */
  function Slope(da: nat, db: nat, ia: nat): nat
    requires da > 0
  {
    (2 * db * ia + da) / da / 2
  }

  lemma {:induction false} SlopePointIs(da: nat, db: nat, ia: nat)
    requires db <= da && ia <= da && da > 0
    ensures SlopePoint(da, db, ia) == Some(Slope(da, db, ia))
  {
    assert 2 * db * ia + da >= 0;
    QuotientNonNegative(2 * db * ia + da, da);
  }

  lemma {:induction false} QuotientNonNegative(a: nat, b: nat)
    requires b > 0
    ensures a / b >= 0
  {
  }

  /** Halving a quotient is dividing by twice the divisor. */
  lemma {:induction false} HalfQuotient(a: nat, d: nat)
    requires d > 0
    ensures var r := a / d / 2;
            2 * (r * d) <= a < 2 * (r * d) + 2 * d
  {
    var q := a / d;
    var r := q / 2;
    assert a == q * d + a % d;
    assert q == 2 * r + q % 2;
    assert q * d == 2 * (r * d) + (q % 2) * d;
    assert (q % 2) * d == if q % 2 == 0 then 0 else d;
  }

  lemma {:induction false} MulNext(r: nat, d: nat)
    ensures (r + 1) * d == r * d + d
  {
  }

  /** Quotients by `2d` are ordered as their dividends. */
  lemma {:induction false} QuotientOrder(a: nat, b: nat, d: nat, r: nat, s: nat)
    requires 2 * (r * d) <= a <= b < 2 * (s * d) + 2 * d
    ensures r <= s
  {
    if s < r {
      MulNext(s, d);
      MulMonotone(s + 1, r, d);
      assert false;
    }
  }

  lemma {:induction false} RiseBound(da: nat, db: nat, ia: nat)
    requires ia <= da
    ensures 2 * db * ia <= 2 * (db * da)
  {
    MulMonotone(ia, da, 2 * db);
    assert ia * (2 * db) == 2 * db * ia && da * (2 * db) == 2 * (db * da);
  }

  /** The point is the integer nearest to `db * ia / da`, halves rounding up, and within `0 .. db`. */
  lemma {:induction false} SlopeNearest(da: nat, db: nat, ia: nat)
    requires db <= da && ia <= da && da > 0
    ensures var r := Slope(da, db, ia);
            && 2 * (r * da) - 2 * db * ia <= da && 2 * db * ia - 2 * (r * da) < da
            && 0 <= r <= db
  {
    var r, a := Slope(da, db, ia), 2 * db * ia;
    HalfQuotient(a + da, da);
    RiseBound(da, db, ia);
    QuotientOrder(a + da, 2 * (db * da) + da, da, r, db);
  }

  lemma {:induction false} SlopeEnds(da: nat, db: nat)
    requires db <= da && da > 0
    ensures Slope(da, db, 0) == 0 && Slope(da, db, da) == db
  {
    HalfQuotient(da, da);
    assert 2 * db * 0 + da == da;
    UniqueQuotient(2 * db * da + da, da, 2 * db + 1, 0);
  }

  /** From one major step to the next the minor coordinate stays or moves on by one. */
  lemma {:induction false} SlopeStep(da: nat, db: nat, ia: nat)
    requires db <= da && ia < da
    ensures Slope(da, db, ia) <= Slope(da, db, ia + 1) <= Slope(da, db, ia) + 1
  {
    var a, r, r' := 2 * db * ia + da, Slope(da, db, ia), Slope(da, db, ia + 1);
    assert 2 * db * (ia + 1) + da == a + 2 * db;
    HalfQuotient(a, da);
    HalfQuotient(a + 2 * db, da);
    QuotientOrder(a, a + 2 * db, da, r, r');
    MulNext(r, da);
    QuotientOrder(a + 2 * db, a + 2 * da, da, r', r + 1);
  }

  /** The largest intermediate value of `calc_slope_point` fits a signed 64-bit word at every step of a line exactly
      when it does at the last one painted. */
  lemma {:induction false} SlopeFits(da: nat, db: nat, limit: nat)
    requires da > 0
    ensures (forall ia: nat | ia < da :: Rise(da, db, ia) < limit) <==> Rise(da, db, da - 1) < limit
  {
    forall ia: nat | ia < da ensures Rise(da, db, ia) <= Rise(da, db, da - 1) {
      MulMonotone(ia, da - 1, 2 * db);
    }
  }

  /** The dividend of `calc_slope_point`. */
  function Rise(da: nat, db: nat, ia: nat): nat { ia * (2 * db) + da }

  /** Below `2^31` pixels to a side it always does. */
  lemma {:induction false} SlopeFitsSmall(da: nat, db: nat)
    requires 0 < da < 0x8000_0000 && db <= da
    ensures Rise(da, db, da - 1) < 0x8000_0000_0000_0000
  {
    MulMonotone(2 * db, 0xFFFF_FFFE, da - 1);
    assert (da - 1) * (2 * db) == 2 * db * (da - 1);
  }

  /* The line as a path. */

  datatype Point = Point(x: int, y: int)

  function Abs(a: int): nat { if a >= 0 then a else -a }

  function Sign(a: int): int { if a > 0 then 1 else if a < 0 then -1 else 0 }

  /** Steps a line takes: the longer side of its bounding box. */
  function Steps(p: Point, q: Point): nat { Max(Abs(q.x - p.x), Abs(q.y - p.y)) }

  /** The `k`-th point of the line from `p` to `q`; the `Steps`-th is `q` and is not painted. */
  function LinePoint(p: Point, q: Point, k: nat): Point
    requires k <= Steps(p, q)
  {
    var dx, dy := Abs(q.x - p.x), Abs(q.y - p.y);
    var sx, sy := Sign(q.x - p.x), Sign(q.y - p.y);
    if dx == 0 && dy == 0 then p
    else if dx >= dy then Point(p.x + k * sx, p.y + Slope(dx, dy, k) * sy)
    else Point(p.x + Slope(dy, dx, k) * sx, p.y + k * sy)
  }

  predicate Between(a: int, b: int, c: int) { (a <= b <= c) || (c <= b <= a) }

  /** The line starts at `p`, would end at `q`, and stays in the box between them. */
  lemma {:induction false} LineInBox(p: Point, q: Point, k: nat)
    requires k <= Steps(p, q)
    ensures Between(p.x, LinePoint(p, q, k).x, q.x) && Between(p.y, LinePoint(p, q, k).y, q.y)
    ensures LinePoint(p, q, 0) == p && LinePoint(p, q, Steps(p, q)) == q
  {
    var dx, dy := Abs(q.x - p.x), Abs(q.y - p.y);
    if dx >= dy && dx > 0 {
      SlopeInside(dx, dy, k);
      PointInBox(p, q, k, Slope(dx, dy, k));
    } else if dy > dx {
      SlopeInside(dy, dx, k);
      PointInBox(p, q, Slope(dy, dx, k), k);
    }
    LineEnds(p, q);
  }

  /** `r` steps on one axis and `s` on the other, neither past the end. */
  lemma {:induction false} PointInBox(p: Point, q: Point, r: nat, s: nat)
    requires r <= Abs(q.x - p.x) && s <= Abs(q.y - p.y)
    ensures Between(p.x, p.x + r * Sign(q.x - p.x), q.x) && Between(p.y, p.y + s * Sign(q.y - p.y), q.y)
  {
    AxisInside(p.x, q.x, r);
    AxisInside(p.y, q.y, s);
  }

  lemma {:induction false} LineEnds(p: Point, q: Point)
    ensures LinePoint(p, q, 0) == p && LinePoint(p, q, Steps(p, q)) == q
  {
    var dx, dy := Abs(q.x - p.x), Abs(q.y - p.y);
    AxisEnds(p.x, q.x);
    AxisEnds(p.y, q.y);
    if dx >= dy && dx > 0 {
      SlopeEnds(dx, dy);
    } else if dy > dx {
      SlopeEnds(dy, dx);
    }
  }

  /** Going `r` steps from `a` toward `b` stays between them; after all of them one has arrived. */
  lemma {:induction false} AxisInside(a: int, b: int, r: nat)
    requires r <= Abs(b - a)
    ensures Between(a, a + r * Sign(b - a), b)
  {
    TimesSign(r, Sign(b - a));
  }

  lemma {:induction false} AxisEnds(a: int, b: int)
    ensures a + 0 * Sign(b - a) == a && a + Abs(b - a) * Sign(b - a) == b
  {
    TimesSign(Abs(b - a), Sign(b - a));
  }

  lemma {:induction false} TimesSign(n: int, s: int)
    requires -1 <= s <= 1
    ensures n * s == if s == 1 then n else if s == -1 then -n else 0
  {
  }

  lemma {:induction false} SlopeInside(da: nat, db: nat, ia: nat)
    requires db <= da && ia <= da && da > 0
    ensures Slope(da, db, ia) <= db
  {
    SlopeNearest(da, db, ia);
  }

  /** Neighbouring points touch, corners included, and differ: the path has no gap and no repeat. */
  lemma {:induction false} LineConnected(p: Point, q: Point, k: nat)
    requires k < Steps(p, q)
    ensures var a, b := LinePoint(p, q, k), LinePoint(p, q, k + 1);
            Abs(b.x - a.x) <= 1 && Abs(b.y - a.y) <= 1 && a != b
  {
    var dx, dy := Abs(q.x - p.x), Abs(q.y - p.y);
    var sx, sy := Sign(q.x - p.x), Sign(q.y - p.y);
    if dx >= dy {
      SlopeStep(dx, dy, k);
      SignedStep(k, k + 1, sx);
      SignedStep(Slope(dx, dy, k), Slope(dx, dy, k + 1), sy);
    } else {
      SlopeStep(dy, dx, k);
      SignedStep(k, k + 1, sy);
      SignedStep(Slope(dy, dx, k), Slope(dy, dx, k + 1), sx);
    }
  }

  /** A step of 0 or 1 along an axis, in either direction. */
  lemma {:induction false} SignedStep(r: nat, r': nat, s: int)
    requires r <= r' <= r + 1 && -1 <= s <= 1
    ensures Abs(r' * s - r * s) <= 1 && (r' == r + 1 ==> r' * s - r * s == s)
  {
    assert r' * s - r * s == (r' - r) * s;
  }

  /** Pixel `a` is where the line passes at step `k`: `k` steps along the longer side, and on the shorter side the
      nearest to the true line, the farther of two equally near. */
  predicate Nearest(p: Point, q: Point, k: nat, a: Point)
  {
    var dx, dy := Abs(q.x - p.x), Abs(q.y - p.y);
    && Between(p.x, a.x, q.x) && Between(p.y, a.y, q.y)
    && var rx, ry := Abs(a.x - p.x), Abs(a.y - p.y);
    if dx >= dy then rx == k && Closest(dx, dy, k, ry) else ry == k && Closest(dy, dx, k, rx)
  }

  /** `r` is at most half a pixel above `db * ia / da` and less than half a pixel below it. */
  predicate Closest(da: nat, db: nat, ia: nat, r: nat)
  {
    2 * (r * da) - 2 * db * ia <= da && 2 * db * ia - 2 * (r * da) < da
  }

  /** The pixels of the line are exactly those. */
  lemma {:induction false} LineIsNearest(p: Point, q: Point, k: nat, a: Point)
    requires k < Steps(p, q)
    ensures Nearest(p, q, k, a) <==> a == LinePoint(p, q, k)
  {
    var dx, dy := Abs(q.x - p.x), Abs(q.y - p.y);
    if dx >= dy {
      ClosestOnAxis(dx, dy, k, p.y, q.y, a.y);
      OnAxis(p.x, q.x, k, a.x);
    } else {
      ClosestOnAxis(dy, dx, k, p.x, q.x, a.x);
      OnAxis(p.y, q.y, k, a.y);
    }
  }

  /** On the shorter side, from `b` to `c`. */
  lemma {:induction false} ClosestOnAxis(da: nat, db: nat, ia: nat, b: int, c: int, x: int)
    requires db == Abs(c - b) <= da && ia <= da && da > 0
    ensures Between(b, x, c) && Closest(da, db, ia, Abs(x - b)) <==> x == b + Slope(da, db, ia) * Sign(c - b)
  {
    OneClosest(da, db, ia, Abs(x - b));
    OnAxis(b, c, Slope(da, db, ia), x);
  }

  /** Only one integer is. */
  lemma {:induction false} OneClosest(da: nat, db: nat, ia: nat, r: nat)
    requires db <= da && ia <= da && da > 0
    ensures Closest(da, db, ia, r) <==> r == Slope(da, db, ia)
    ensures Slope(da, db, ia) <= db
  {
    var s, a := Slope(da, db, ia), 2 * db * ia + da;
    SlopeNearest(da, db, ia);
    if Closest(da, db, ia, r) {
      QuotientOrder(a, a, da, r, s);
      QuotientOrder(a, a, da, s, r);
    }
  }

  /** Of the points between `a` and `b` one is `r` steps from `a`. */
  lemma {:induction false} OnAxis(a: int, b: int, r: nat, x: int)
    requires r <= Abs(b - a)
    ensures Between(a, x, b) && Abs(x - a) == r <==> x == a + r * Sign(b - a)
  {
    TimesSign(r, Sign(b - a));
  }

  /* Pixels. */

  class Bitmap {
    const width: int
    const height: int
    const pixelsPerLine: int
    const buf: array<int>

    /** The buffer holds every line. */
    ghost predicate Valid()
    {
      forall x, y :: InRange(Point(x, y)) ==> 0 <= Offset(Point(x, y)) < buf.Length
    }

    /** `is_in_x_range` and `is_in_y_range`. */
    predicate InRange(p: Point)
    {
      0 <= p.x < Min(width, pixelsPerLine) && 0 <= p.y < height
    }

    /** `unchecked_pixel_at_mut`, in pixels. */
    function Offset(p: Point): int { p.y * pixelsPerLine + p.x }

    constructor (width: int, height: int, pixelsPerLine: int, buf: array<int>)
      requires pixelsPerLine >= 0 && height >= 0 && buf.Length == height * pixelsPerLine
      ensures Valid() && this.width == width && this.height == height && this.pixelsPerLine == pixelsPerLine
      ensures this.buf == buf
    {
      this.width := width;
      this.height := height;
      this.pixelsPerLine := pixelsPerLine;
      this.buf := buf;
      new;
      forall x, y | InRange(Point(x, y)) ensures 0 <= Offset(Point(x, y)) < buf.Length {
        OffsetBound(x, y, pixelsPerLine, height);
      }
    }

    /** `draw_point`. */
    method DrawPoint(color: int, p: Point) returns (ok: bool)
      requires Valid()
      modifies buf
      ensures ok <==> 0 <= p.x < width && p.x < pixelsPerLine && 0 <= p.y < height
      ensures ok ==> 0 <= p.y * pixelsPerLine + p.x < buf.Length
      ensures buf[..] == if ok then old(buf[..])[p.y * pixelsPerLine + p.x := color] else old(buf[..])
    {
      ok := InRange(p);
      if ok {
        assert InRange(Point(p.x, p.y));
        buf[Offset(p)] := color;
      }
    }

    /** Some pixel of row `y` from `px` up to `ex` has offset `j`. */
    ghost predicate InRow(px: int, ex: int, y: int, j: int) { exists x :: px <= x < ex && Offset(Point(x, y)) == j }

    /** Some pixel of the rectangle has offset `j`. */
    ghost predicate InRect(px: int, ex: int, py: int, ey: int, j: int)
    {
      exists y :: py <= y < ey && InRow(px, ex, y, j)
    }

    /** `fill_rect`: checks the two corners, then paints exactly the pixels between them; an empty rectangle, which a
        width or height below one asks for, paints nothing. */
    method FillRect(color: int, px: int, py: int, w: int, h: int) returns (ok: bool)
      requires Valid()
      modifies buf
      ensures ok <==> && 0 <= px < width && px < pixelsPerLine && 0 <= py < height
                      && 0 < px + w <= width && px + w <= pixelsPerLine && 0 < py + h <= height
      ensures !ok ==> buf[..] == old(buf[..])
      ensures ok ==> forall j | 0 <= j < buf.Length ::
                buf[j] == if px <= j % pixelsPerLine < px + w && py <= j / pixelsPerLine < py + h then color
                          else old(buf[j])
    {
      if !InRange(Point(px, py)) || !InRange(Point(px + w - 1, py + h - 1)) {
        return false;
      }
      var y := py;
      while y < py + h
        invariant py <= y && (y <= py + h || y == py)
        invariant forall j | 0 <= j < buf.Length ::
                    buf[j] == if InRect(px, px + w, py, y, j) then color else old(buf[j])
      {
        FillRow(color, px, px + w, y);
        RectGrows(px, px + w, py, y);
        y := y + 1;
      }
      forall j | 0 <= j < buf.Length
        ensures buf[j] == if px <= j % pixelsPerLine < px + w && py <= j / pixelsPerLine < py + h then color
                          else old(buf[j])
      {
        RectIs(px, px + w, py, py + h, j);
      }
      ok := true;
    }

    /** The pixels of a rectangle are those whose column and row lie in it. */
    lemma {:induction false} RectIs(px: int, ex: int, py: int, ey: int, j: nat)
      requires 0 <= px && ex <= pixelsPerLine && 0 < pixelsPerLine && 0 <= py
      ensures InRect(px, ex, py, ey, j) <==> px <= j % pixelsPerLine < ex && py <= j / pixelsPerLine < ey
    {
      if y :| py <= y < ey && InRow(px, ex, y, j) {
        var x :| px <= x < ex && Offset(Point(x, y)) == j;
        UniqueQuotient(j, pixelsPerLine, y, x);
      }
      if px <= j % pixelsPerLine < ex && py <= j / pixelsPerLine < ey {
        assert Offset(Point(j % pixelsPerLine, j / pixelsPerLine)) == j;
        assert InRow(px, ex, j / pixelsPerLine, j);
      }
    }

    /** The inner loop. */
    method FillRow(color: int, px: int, ex: int, y: int)
      requires Valid() && InRange(Point(px, y)) && InRange(Point(ex - 1, y))
      modifies buf
      ensures forall j | 0 <= j < buf.Length :: buf[j] == if InRow(px, ex, y, j) then color else old(buf[j])
    {
      var x := px;
      while x < ex
        invariant px <= x && (x <= ex || x == px)
        invariant forall j | 0 <= j < buf.Length :: buf[j] == if InRow(px, x, y, j) then color else old(buf[j])
      {
        assert InRange(Point(x, y));
        buf[Offset(Point(x, y))] := color;
        RowGrows(px, x, y);
        x := x + 1;
      }
    }

    lemma {:induction false} RowGrows(px: int, x: int, y: int)
      requires px <= x
      ensures forall j: int :: InRow(px, x + 1, y, j) <==> InRow(px, x, y, j) || j == Offset(Point(x, y))
    {
      forall j: int ensures InRow(px, x + 1, y, j) <==> InRow(px, x, y, j) || j == Offset(Point(x, y)) {
        RowGrowsAt(px, x, y, j);
      }
    }

    lemma {:induction false} RowGrowsAt(px: int, x: int, y: int, j: int)
      requires px <= x
      ensures InRow(px, x + 1, y, j) <==> InRow(px, x, y, j) || j == Offset(Point(x, y))
    {
      if InRow(px, x + 1, y, j) {
        var x' :| px <= x' < x + 1 && Offset(Point(x', y)) == j;
        assert x' < x || j == Offset(Point(x, y));
      }
      if InRow(px, x, y, j) {
        var x' :| px <= x' < x && Offset(Point(x', y)) == j;
        assert px <= x' < x + 1;
      }
      if j == Offset(Point(x, y)) {
        assert px <= x < x + 1 && Offset(Point(x, y)) == j;
      }
    }

    lemma {:induction false} RectGrows(px: int, ex: int, py: int, y: int)
      requires py <= y
      ensures forall j: int :: InRect(px, ex, py, y + 1, j) <==> InRect(px, ex, py, y, j) || InRow(px, ex, y, j)
    {
    }

    /** A pixel of the screen stands in its own column and row, so it is painted exactly when it lies in the
        rectangle. */
    lemma {:induction false} PaintedIsInRect(px: int, py: int, w: int, h: int, x: nat, y: nat)
      requires x < pixelsPerLine
      ensures var j := y * pixelsPerLine + x;
              px <= j % pixelsPerLine < px + w && py <= j / pixelsPerLine < py + h <==>
              px <= x < px + w && py <= y < py + h
    {
      UniqueQuotient(y * pixelsPerLine + x, pixelsPerLine, y, x);
    }

    /** In one of the first `n` steps the line passes the pixel stored at `j`. */
    ghost predicate OnLine(p: Point, q: Point, n: nat, j: int)
    {
      exists k: nat, a: Point :: k < n && Passes(p, q, k, a, j)
    }

    /** At step `k` the line passes pixel `a`, which is stored at `j`. */
    predicate Passes(p: Point, q: Point, k: nat, a: Point, j: int)
    {
      Nearest(p, q, k, a) && a.y * pixelsPerLine + a.x == j
    }

    /** `draw_line`: for end points in range it succeeds and paints exactly the pixels nearest to the line, one for each
        step along its longer side, the last left out. */
    method DrawLine(color: int, p: Point, q: Point) returns (ok: bool)
      requires Valid()
      modifies buf
      ensures ok <==> && 0 <= p.x < width && p.x < pixelsPerLine && 0 <= p.y < height
                      && 0 <= q.x < width && q.x < pixelsPerLine && 0 <= q.y < height
      ensures !ok ==> buf[..] == old(buf[..])
      ensures ok ==> forall j | 0 <= j < buf.Length ::
                buf[j] == if OnLine(p, q, Max(Abs(q.x - p.x), Abs(q.y - p.y)), j) then color else old(buf[j])
    {
      if !InRange(p) || !InRange(q) {
        return false;
      }
      var n := Steps(p, q);
      for k := 0 to n
        invariant forall j | 0 <= j < buf.Length :: buf[j] == if OnLine(p, q, k, j) then color else old(buf[j])
      {
        var pixel := PixelAt(p, q, k);
        LineOnScreen(p, q, k);
        ok := DrawPoint(color, pixel);
        if !ok {
          return;
        }
        LineGrows(p, q, k);
      }
      ok := true;
    }

    /** The body of either loop up to the call of `draw_point`: the longer side decides which coordinate follows the
        slope. */
    method PixelAt(p: Point, q: Point, k: nat) returns (pixel: Point)
      requires k < Steps(p, q)
      ensures pixel == LinePoint(p, q, k)
    {
      var dx, dy := Abs(q.x - p.x), Abs(q.y - p.y);
      var sx, sy := Sign(q.x - p.x), Sign(q.y - p.y);
      if dx >= dy {
        SlopePointIs(dx, dy, k);
        var ry := SlopePoint(dx, dy, k);
        pixel := Point(p.x + k * sx, p.y + ry.value * sy);
      } else {
        SlopePointIs(dy, dx, k);
        var rx := SlopePoint(dy, dx, k);
        pixel := Point(p.x + rx.value * sx, p.y + k * sy);
      }
    }

    lemma {:induction false} LineOnScreen(p: Point, q: Point, k: nat)
      requires InRange(p) && InRange(q) && k <= Steps(p, q)
      ensures InRange(LinePoint(p, q, k))
    {
      LineInBox(p, q, k);
    }

    /** A pixel of the screen is painted exactly when the line passes it in some step. */
    lemma {:induction false} PaintedIsOnPath(p: Point, q: Point, n: nat, pixel: Point)
      requires InRange(p) && InRange(q) && InRange(pixel) && n <= Steps(p, q)
      ensures OnLine(p, q, n, pixel.y * pixelsPerLine + pixel.x) <==>
                exists k: nat :: k < n && Nearest(p, q, k, pixel)
    {
      var j := pixel.y * pixelsPerLine + pixel.x;
      if k: nat, a: Point :| k < n && Passes(p, q, k, a, j) {
        OffsetsDistinct(a, pixel, pixelsPerLine);
      }
      if k: nat :| k < n && Nearest(p, q, k, pixel) { assert Passes(p, q, k, pixel, j); }
    }

    lemma {:induction false} LineGrows(p: Point, q: Point, n: nat)
      requires n < Steps(p, q)
      ensures forall j: int :: OnLine(p, q, n + 1, j) <==> OnLine(p, q, n, j) || j == Offset(LinePoint(p, q, n))
    {
      forall j: int, b: Point ensures Passes(p, q, n, b, j) <==> b == LinePoint(p, q, n) && j == Offset(b) {
        LineIsNearest(p, q, n, b);
      }
      forall j: int ensures OnLine(p, q, n + 1, j) <==> OnLine(p, q, n, j) || j == Offset(LinePoint(p, q, n)) {
        LineGrowsAt(p, q, n, LinePoint(p, q, n), j);
      }
    }

    lemma {:induction false} LineGrowsAt(p: Point, q: Point, n: nat, a: Point, j: int)
      requires forall b: Point :: Passes(p, q, n, b, j) <==> b == a && j == Offset(a)
      ensures OnLine(p, q, n + 1, j) <==> OnLine(p, q, n, j) || j == Offset(a)
    {
      if k: nat, b: Point :| k < n + 1 && Passes(p, q, k, b, j) {
        assert k < n ==> OnLine(p, q, n, j);
      }
      if j == Offset(a) { assert Passes(p, q, n, a, j); }
      if k: nat, b: Point :| k < n && Passes(p, q, k, b, j) { assert k < n + 1; }
    }
  }

  lemma {:induction false} OffsetBound(x: int, y: int, ppl: int, height: int)
    requires 0 <= x < ppl && 0 <= y < height
    ensures 0 <= y * ppl + x < height * ppl
  {
    MulMonotone(y + 1, height, ppl);
  }

  /** Distinct points of the screen have distinct offsets, so painting one leaves the others alone. */
  lemma {:induction false} OffsetsDistinct(a: Point, b: Point, ppl: int)
    requires 0 <= a.x < ppl && 0 <= b.x < ppl && a.y * ppl + a.x == b.y * ppl + b.x
    requires a.y >= 0 && b.y >= 0
    ensures a == b
  {
    UniqueQuotient(a.y * ppl + a.x, ppl, a.y, a.x);
    UniqueQuotient(b.y * ppl + b.x, ppl, b.y, b.x);
  }
}
