/** Bresenham lines of Adafruit_GFX.cpp: drawLine, and the generic fast lines and rectangle fill
    built on it. */
module LineRaster {
  import opened Arithmetic

  datatype Point = Point(x: int, y: int)

  /** 16-bit coordinates for which the loop counter and the step past the last pixel stay in range. */
  predicate Drawable(p: Point) {
    -32767 <= p.x <= 32766 && -32767 <= p.y <= 32766
  }

  predicate Int16(a: int) {
    -32768 <= a <= 32767
  }

  function Abs(a: int): (r: int)
    ensures r >= 0
  {
    if a < 0 then -a else a
  }

  function Max(a: int, b: int): int {
    if a < b then b else a
  }

  // ---------- the ideal line ----------

  /** The error term of Bresenham's loop after `k` steps, `m` of them also minor. */
  function Error(dx: nat, dy: nat, k: nat, m: nat): int {
    dx / 2 - k * dy + m * dx
  }

  /** Minor-axis offset `m` at major-axis offset `k` on a line rising `dy` over `dx`: k*dy/dx
      rounded to the nearest integer, ties down. */
  predicate IsMinor(dx: nat, dy: nat, k: nat, m: nat) {
    if dx == 0 then m == 0 else 0 <= Error(dx, dy, k, m) < dx
  }

  lemma HasMinor(dx: nat, dy: nat, k: nat)
    requires dy <= dx
    ensures exists m: nat :: IsMinor(dx, dy, k, m)
  {
    if dx == 0 {
      assert IsMinor(dx, dy, k, 0);
    } else {
      var n := k * dy + (dx - 1) / 2;
      var m := n / dx;
      assert n == dx * m + n % dx;
      assert dx - 1 - (dx - 1) / 2 == dx / 2;
      assert IsMinor(dx, dy, k, m);
    }
  }

  ghost function Minor(dx: nat, dy: nat, k: nat): nat
    requires dy <= dx
  {
    HasMinor(dx, dy, k);
    var m: nat :| IsMinor(dx, dy, k, m);
    m
  }

  lemma MinorBounds(dx: nat, dy: nat, k: nat)
    requires dx > 0 && dy <= dx
    ensures 0 <= Error(dx, dy, k, Minor(dx, dy, k)) < dx
  {
    HasMinor(dx, dy, k);
  }

  lemma MinorUnique(dx: nat, dy: nat, k: nat, m: nat)
    requires dy <= dx && IsMinor(dx, dy, k, m)
    ensures m == Minor(dx, dy, k)
  {
    HasMinor(dx, dy, k);
    if dx > 0 {
      var d := m - Minor(dx, dy, k);
      assert m * dx - Minor(dx, dy, k) * dx == d * dx;
      if d >= 1 {
        AtLeast(d, dx);
      } else if d <= -1 {
        AtLeast(-d, dx);
      }
    }
  }

  /** The chosen minor offset is the nearest to the ideal line, it starts at 0 and ends at `dy`,
      and it never drops or climbs by more than one. */
  lemma MinorIsNearest(dx: nat, dy: nat, k: nat)
    requires dy <= dx && k <= dx
    ensures var m := Minor(dx, dy, k);
            && 2 * Abs(m * dx - k * dy) <= dx
            && (dx > 0 ==> 2 * (m * dx - k * dy) < dx)
            && (k == 0 ==> m == 0)
            && (k == dx ==> m == dy)
            && m <= dy
            && (k < dx ==> m <= Minor(dx, dy, k + 1) <= m + 1)
  {
    MinorZero(dy, k);
    MinorZero(dy, k + 1);
    if dx > 0 {
      MinorBounds(dx, dy, k);
      MinorBounds(dx, dy, k + 1);
      MinorEnds(dx, dy, k);
      if k < dx {
        MinorSteps(dx, dy, k);
      }
      MinorBelow(dx, dy, k);
    }
  }

  lemma MinorZero(dy: nat, k: nat)
    ensures dy == 0 ==> Minor(0, dy, k) == 0
  {
    HasMinor(0, 0, k);
  }

  lemma MinorEnds(dx: nat, dy: nat, k: nat)
    requires 0 < dx && dy <= dx
    ensures k == 0 ==> Minor(dx, dy, k) == 0
    ensures k == dx ==> Minor(dx, dy, k) == dy
  {
    if k == 0 {
      MinorUnique(dx, dy, 0, 0);
    }
    if k == dx {
      assert k * dy == dy * dx;
      MinorUnique(dx, dy, k, dy);
    }
  }

  lemma MinorSteps(dx: nat, dy: nat, k: nat)
    requires 0 < dx && dy <= dx
    ensures Minor(dx, dy, k) <= Minor(dx, dy, k + 1) <= Minor(dx, dy, k) + 1
  {
    var m := Minor(dx, dy, k);
    MinorBounds(dx, dy, k);
    assert (k + 1) * dy == k * dy + dy;
    assert (m + 1) * dx == m * dx + dx;
    if Error(dx, dy, k, m) >= dy {
      MinorUnique(dx, dy, k + 1, m);
    } else {
      MinorUnique(dx, dy, k + 1, m + 1);
    }
  }

  lemma {:induction false} MinorBelow(dx: nat, dy: nat, k: nat)
    requires 0 < dx && dy <= dx && k <= dx
    ensures Minor(dx, dy, k) <= dy
    decreases dx - k
  {
    if k == dx {
      MinorEnds(dx, dy, k);
    } else {
      MinorSteps(dx, dy, k);
      MinorBelow(dx, dy, k + 1);
    }
  }

  // ---------- the pixels of a line ----------

  predicate Steep(a: Point, b: Point) {
    Abs(b.y - a.y) > Abs(b.x - a.x)
  }

  function Flip(p: Point): Point {
    Point(p.y, p.x)
  }

  /** The pixel at major offset `k` of a line with |slope| <= 1, counted from its left end. */
  ghost function Along(a: Point, b: Point, k: nat): Point
    requires !Steep(a, b)
  {
    var l, h := if a.x > b.x then b else a, if a.x > b.x then a else b;
    var m := Minor(h.x - l.x, Abs(h.y - l.y), k);
    Point(l.x + k, if l.y < h.y then l.y + m else l.y - m)
  }

  ghost function Gentle(a: Point, b: Point): (r: seq<Point>)
    requires !Steep(a, b)
    ensures |r| == Abs(b.x - a.x) + 1
    ensures forall k :: 0 <= k < |r| ==> r[k] == Along(a, b, k)
  {
    seq(Abs(b.x - a.x) + 1, k requires 0 <= k => Along(a, b, k))
  }

  ghost predicate IsLine(a: Point, b: Point, s: seq<Point>) {
    s == if Steep(a, b) then Flipped(Gentle(Flip(a), Flip(b))) else Gentle(a, b)
  }

  /** The pixels of drawLine in plotting order; chosen by IsLine, which HasLine gives. */
  ghost function LinePixels(a: Point, b: Point): seq<Point> {
    HasLine(a, b);
    var s :| IsLine(a, b, s);
    s
  }

  lemma HasLine(a: Point, b: Point)
    ensures exists s :: IsLine(a, b, s)
  {
    assert IsLine(a, b, if Steep(a, b) then Flipped(Gentle(Flip(a), Flip(b))) else Gentle(a, b));
  }

  function Flipped(s: seq<Point>): (r: seq<Point>)
    ensures |r| == |s| && forall k :: 0 <= k < |s| ==> r[k] == Flip(s[k])
  {
    seq(|s|, k requires 0 <= k < |s| => Flip(s[k]))
  }

  /** Two pixels touch, edge or corner. */
  predicate Adjacent(p: Point, q: Point) {
    Abs(p.x - q.x) <= 1 && Abs(p.y - q.y) <= 1 && p != q
  }

  /** Distance from the ideal line along the minor axis, in units of 1/dx: at most half a pixel. */
  predicate Near(v: int, u: int, dx: int, dy: int) {
    2 * Abs(v * dx - u * dy) <= Abs(dx)
  }

  predicate OnLine(a: Point, b: Point, p: Point) {
    Near(p.y - a.y, p.x - a.x, b.x - a.x, b.y - a.y)
  }

  lemma SignedNear(dx: int, dy: int, k: int, m: int)
    requires 2 * Abs(m * dx - k * dy) <= dx
    ensures Near(m, k, dx, dy) && Near(-m, k, dx, -dy)
  {
    assert (-m) * dx - k * (-dy) == -(m * dx - k * dy);
  }

  /** Measured from the other endpoint the distance is the same. */
  lemma NearMirrors(v: int, u: int, dx: int, dy: int)
    requires Near(v, u, dx, dy)
    ensures Near(v - dy, u - dx, -dx, -dy)
  {
    assert (v - dy) * (-dx) - (u - dx) * (-dy) == -(v * dx - u * dy);
  }

  lemma LeftIsOnLine(l: Point, h: Point, k: nat, m: nat, dx: nat, dy: nat)
    requires dx == h.x - l.x && dy == Abs(h.y - l.y) && 2 * Abs(m * dx - k * dy) <= dx
    ensures var p := Point(l.x + k, if l.y < h.y then l.y + m else l.y - m);
            OnLine(l, h, p) && OnLine(h, l, p)
  {
    SignedNear(dx, dy, k, m);
    if l.y < h.y {
      BothEnds(l, h, Point(l.x + k, l.y + m), m, k, dx, dy);
    } else {
      BothEnds(l, h, Point(l.x + k, l.y - m), 0 - m, k, dx, 0 - dy);
    }
  }

  lemma BothEnds(l: Point, h: Point, p: Point, v: int, u: int, dx: int, dy: int)
    requires p.y - l.y == v && p.x - l.x == u && h.x - l.x == dx && h.y - l.y == dy && Near(v, u, dx, dy)
    ensures OnLine(l, h, p) && OnLine(h, l, p)
  {
    NearMirrors(v, u, dx, dy);
    NearOffsets(l, h, p, v, u, dx, dy);
  }

  lemma NearOffsets(l: Point, h: Point, p: Point, v: int, u: int, dx: int, dy: int)
    requires p.y - l.y == v && p.x - l.x == u && h.x - l.x == dx && h.y - l.y == dy
    requires Near(v, u, dx, dy) && Near(v - dy, u - dx, -dx, -dy)
    ensures OnLine(l, h, p) && OnLine(h, l, p)
  {
    assert p.y - h.y == v - dy && p.x - h.x == u - dx && l.x - h.x == -dx && l.y - h.y == -dy;
  }

  lemma AlongIsOnLine(a: Point, b: Point, k: nat)
    requires !Steep(a, b) && k <= Abs(b.x - a.x)
    ensures OnLine(a, b, Along(a, b, k))
  {
    var l, h := if a.x > b.x then b else a, if a.x > b.x then a else b;
    MinorIsNearest(h.x - l.x, Abs(h.y - l.y), k);
    LeftIsOnLine(l, h, k, Minor(h.x - l.x, Abs(h.y - l.y), k), h.x - l.x, Abs(h.y - l.y));
  }

  lemma AlongEnds(a: Point, b: Point)
    requires !Steep(a, b)
    ensures Along(a, b, 0) == if a.x > b.x then b else a
    ensures Along(a, b, Abs(b.x - a.x)) == if a.x > b.x then a else b
  {
    MinorIsNearest(Abs(b.x - a.x), Abs(b.y - a.y), 0);
    MinorIsNearest(Abs(b.x - a.x), Abs(b.y - a.y), Abs(b.x - a.x));
  }

  /** What a line promises, seen from its left end: one pixel for each step of the longer axis,
      both endpoints, no gaps, and every pixel within half a step of the ideal line. */
  lemma GentleIsALine(a: Point, b: Point)
    requires !Steep(a, b)
    ensures var s := Gentle(a, b);
            && ((s[0] == a && s[|s| - 1] == b) || (s[0] == b && s[|s| - 1] == a))
            && (forall k :: 0 <= k < |s| - 1 ==> Adjacent(s[k], s[k + 1]))
            && (forall k :: 0 <= k < |s| ==> OnLine(a, b, s[k]))
  {
    AlongEnds(a, b);
    var s := Gentle(a, b);
    forall k | 0 <= k < |s| ensures OnLine(a, b, s[k]) {
      AlongIsOnLine(a, b, k);
    }
    forall k | 0 <= k < |s| - 1 ensures Adjacent(s[k], s[k + 1]) {
      MinorIsNearest(Abs(b.x - a.x), Abs(b.y - a.y), k);
    }
  }

  /** The promise for any two endpoints, steep or not. */
  lemma LineMeaning(a: Point, b: Point)
    ensures var s := LinePixels(a, b);
            && |s| == Max(Abs(b.x - a.x), Abs(b.y - a.y)) + 1
            && ((s[0] == a && s[|s| - 1] == b) || (s[0] == b && s[|s| - 1] == a))
            && (forall k :: 0 <= k < |s| - 1 ==> Adjacent(s[k], s[k + 1]))
            && (forall k :: 0 <= k < |s| ==>
                  if Steep(a, b) then OnLine(Flip(a), Flip(b), Flip(s[k])) else OnLine(a, b, s[k]))
  {
    HasLine(a, b);
    if Steep(a, b) {
      GentleIsALine(Flip(a), Flip(b));
      var g := Gentle(Flip(a), Flip(b));
      var s := LinePixels(a, b);
      forall k | 0 <= k < |s| - 1 ensures Adjacent(s[k], s[k + 1]) {
        assert Adjacent(g[k], g[k + 1]);
      }
    } else {
      GentleIsALine(a, b);
    }
  }

  /** One pixel per step of the major axis: no two pixels share a major coordinate. */
  lemma OnePerStep(a: Point, b: Point, i: nat, j: nat)
    requires i < j < |LinePixels(a, b)|
    ensures var s := LinePixels(a, b);
            if Steep(a, b) then s[j].y == s[i].y + (j - i) else s[j].x == s[i].x + (j - i)
  {
    HasLine(a, b);
  }

  /** Exchanging the endpoints plots the same pixels, even in the same order. */
  lemma SameEitherWay(a: Point, b: Point)
    ensures LinePixels(a, b) == LinePixels(b, a)
  {
    HasLine(a, b);
    HasLine(b, a);
    if Steep(a, b) {
      GentleEitherWay(Flip(a), Flip(b));
    } else {
      GentleEitherWay(a, b);
    }
  }

  lemma GentleEitherWay(a: Point, b: Point)
    requires !Steep(a, b)
    ensures Gentle(a, b) == Gentle(b, a)
  {
  }

  // ---------- drawLine ----------

  /** The canvas is a log of the pixels drawn; drawing a pixel appends to it. */
  class Gfx {
    var plotted: seq<Point>

    constructor ()
      ensures plotted == []
    {
      plotted := [];
    }

    method DrawPixel(x: int, y: int)
      modifies this
      ensures plotted == old(plotted) + [Point(x, y)]
    {
      plotted := plotted + [Point(x, y)];
    }

    method DrawLine(a: Point, b: Point)
      requires Drawable(a) && Drawable(b) && Abs(b.x - a.x) <= 32767 && Abs(b.y - a.y) <= 32767
      modifies this
      ensures plotted == old(plotted) + LinePixels(a, b)
    {
      HasLine(a, b);
      var x0, y0, x1, y1 := a.x, a.y, b.x, b.y;
      var steep := Abs(y1 - y0) > Abs(x1 - x0);
      if steep {
        x0, y0 := y0, x0;
        x1, y1 := y1, x1;
      }
      if x0 > x1 {
        x0, x1 := x1, x0;
        y0, y1 := y1, y0;
      }
      GentleEitherWay(Point(x0, y0), Point(x1, y1));
      PlotGentle(steep, x0, y0, x1, y1);
    }

    /** The loop of drawLine, from the left end; all its variables stay 16-bit values. */
    method PlotGentle(steep: bool, left: int, bottom: int, x1: int, y1: int)
      requires left <= x1 && Abs(y1 - bottom) <= x1 - left <= 32767
      requires Drawable(Point(left, bottom)) && Drawable(Point(x1, y1))
      modifies this
      ensures var line := Gentle(Point(left, bottom), Point(x1, y1));
              plotted == old(plotted) + if steep then Flipped(line) else line
    {
      var x0, y0 := left, bottom;
      var dx, dy := x1 - x0, Abs(y1 - y0);
      var err := dx / 2;
      var ystep := if y0 < y1 then 1 else -1;
      ghost var gentle := Gentle(Point(x0, y0), Point(x1, y1));
      ghost var line := if steep then Flipped(gentle) else gentle;
      ghost var k, m := 0, 0;
      while x0 <= x1
        invariant 0 <= k <= dx + 1 && x0 == left + k && m >= 0 && y0 == bottom + ystep * m
        invariant err == Error(dx, dy, k, m) && IsMinor(dx, dy, k, m)
        invariant plotted == old(plotted) + line[..k]
        invariant Int16(x0) && Int16(y0) && Int16(err)
      {
        PixelAt(Point(left, bottom), Point(x1, y1), dx, dy, k, m);
        assert line[k] == if steep then Point(y0, x0) else Point(x0, y0);
        assert line[..k + 1] == line[..k] + [line[k]];
        if steep {
          DrawPixel(y0, x0);
        } else {
          DrawPixel(x0, y0);
        }
        NextError(dx, dy, k, m);
        err := err - dy;
        if err < 0 {
          y0 := y0 + ystep;
          err := err + dx;
          m := m + 1;
        }
        x0 := x0 + 1;
        k := k + 1;
      }
    }

    /** The generic fast lines. */
    method DrawFastVLine(x: int, y: int, h: int)
      requires Drawable(Point(x, y)) && Drawable(Point(x, y + h - 1)) && -32766 <= h <= 32767
      modifies this
      ensures plotted == old(plotted) + LinePixels(Point(x, y), Point(x, y + h - 1))
    {
      DrawLine(Point(x, y), Point(x, y + h - 1));
    }

    method DrawFastHLine(x: int, y: int, w: int)
      requires Drawable(Point(x, y)) && Drawable(Point(x + w - 1, y)) && -32766 <= w <= 32767
      modifies this
      ensures plotted == old(plotted) + LinePixels(Point(x, y), Point(x + w - 1, y))
    {
      DrawLine(Point(x, y), Point(x + w - 1, y));
    }

    /** The generic fillRect: one vertical line after the other. */
    method FillRect(x: int, y: int, w: int, h: int)
      requires 1 <= h <= 32767 && w <= 32767
      requires Drawable(Point(x, y)) && Drawable(Point(x + w - 1, y + h - 1))
      modifies this
      ensures plotted == old(plotted) + Columns(x, y, w, h)
    {
      var i := x;
      ghost var n := 0;
      while i < x + w
        invariant i == x + n && (n == 0 || n <= w)
        invariant plotted == old(plotted) + Columns(x, y, n, h)
        decreases x + w - i
      {
        DrawFastVLine(i, y, h);
        ColumnsNext(x, y, n, h, old(plotted));
        i := i + 1;
        n := n + 1;
      }
    }
  }

  /** The pixel the loop is about to draw, from its own counters. */
  lemma PixelAt(l: Point, h: Point, dx: nat, dy: nat, k: nat, m: nat)
    requires dx == h.x - l.x && dy == Abs(h.y - l.y) <= dx && k <= dx && IsMinor(dx, dy, k, m)
    ensures m <= dy && Gentle(l, h)[k] == Point(l.x + k, if l.y < h.y then l.y + m else l.y - m)
  {
    MinorUnique(dx, dy, k, m);
    MinorIsNearest(dx, dy, k);
  }

  lemma NextError(dx: nat, dy: nat, k: nat, m: nat)
    ensures Error(dx, dy, k + 1, m) == Error(dx, dy, k, m) - dy
    ensures Error(dx, dy, k + 1, m + 1) == Error(dx, dy, k, m) - dy + dx
  {
    assert (k + 1) * dy == k * dy + dy;
    assert (m + 1) * dx == m * dx + dx;
  }

  /** The pixels of `w` columns, left to right. */
  ghost function Columns(x: int, y: int, w: int, h: int): seq<Point> {
    if w <= 0 then []
    else Columns(x, y, w - 1, h) + LinePixels(Point(x + w - 1, y), Point(x + w - 1, y + h - 1))
  }

  lemma {:induction false} ColumnsNext(x: int, y: int, w: int, h: int, before: seq<Point>)
    requires w >= 0
    ensures before + Columns(x, y, w, h) + LinePixels(Point(x + w, y), Point(x + w, y + h - 1)) ==
            before + Columns(x, y, w + 1, h)
  {
    var front, last := Columns(x, y, w, h), LinePixels(Point(x + w, y), Point(x + w, y + h - 1));
    assert Columns(x, y, w + 1, h) == front + last;
    assert before + front + last == before + (front + last);
  }

  /** Upright and level lines of positive length are what their names say. */
  lemma VLinePixels(x: int, y: int, h: nat, k: nat)
    requires k < h
    ensures |LinePixels(Point(x, y), Point(x, y + h - 1))| == h
    ensures LinePixels(Point(x, y), Point(x, y + h - 1))[k] == Point(x, y + k)
  {
    HasLine(Point(x, y), Point(x, y + h - 1));
    MinorUnique(h - 1, 0, k, 0);
  }

  lemma HLinePixels(x: int, y: int, w: nat, k: nat)
    requires k < w
    ensures |LinePixels(Point(x, y), Point(x + w - 1, y))| == w
    ensures LinePixels(Point(x, y), Point(x + w - 1, y))[k] == Point(x + k, y)
  {
    HasLine(Point(x, y), Point(x + w - 1, y));
    MinorUnique(w - 1, 0, k, 0);
  }

  /** The rectangle fill plots exactly the points of the rectangle. */
  lemma {:induction false} ColumnsCover(x: int, y: int, w: int, h: nat, p: Point)
    requires h > 0
    ensures p in Columns(x, y, w, h) <==> x <= p.x < x + w && y <= p.y < y + h
  {
    if w > 0 {
      var last := LinePixels(Point(x + w - 1, y), Point(x + w - 1, y + h - 1));
      InColumns(x, y, w, h, p);
      ColumnsCover(x, y, w - 1, h, p);
      VLineCovers(x + w - 1, y, h, p);
      OneMoreColumn(x, y, w, h, p, p in Columns(x, y, w - 1, h), p in last, p in Columns(x, y, w, h));
    } else {
      assert Columns(x, y, w, h) == [];
    }
  }

  lemma OneMoreColumn(x: int, y: int, w: int, h: int, p: Point, front: bool, last: bool, all: bool)
    requires w > 0 && (front <==> x <= p.x < x + w - 1 && y <= p.y < y + h)
    requires (last <==> p.x == x + w - 1 && y <= p.y < y + h) && (all <==> front || last)
    ensures all <==> x <= p.x < x + w && y <= p.y < y + h
  {
  }

  lemma {:induction false} InColumns(x: int, y: int, w: int, h: int, p: Point)
    requires w > 0
    ensures p in Columns(x, y, w, h) <==>
            p in Columns(x, y, w - 1, h) || p in LinePixels(Point(x + w - 1, y), Point(x + w - 1, y + h - 1))
  {
    InBoth(Columns(x, y, w - 1, h), LinePixels(Point(x + w - 1, y), Point(x + w - 1, y + h - 1)), p);
  }

  lemma InBoth(s: seq<Point>, t: seq<Point>, p: Point)
    ensures p in s + t <==> p in s || p in t
  {
  }

  lemma VLineCovers(x: int, y: int, h: nat, p: Point)
    requires h > 0
    ensures p in LinePixels(Point(x, y), Point(x, y + h - 1)) <==> p.x == x && y <= p.y < y + h
  {
    var s := LinePixels(Point(x, y), Point(x, y + h - 1));
    VLinePixels(x, y, h, 0);
    forall k | 0 <= k < h ensures s[k] == Point(x, y + k) {
      VLinePixels(x, y, h, k);
    }
    if p.x == x && y <= p.y < y + h {
      assert s[p.y - y] == p;
    }
  }

  lemma HLineCovers(x: int, y: int, w: nat, p: Point)
    requires w > 0
    ensures p in LinePixels(Point(x, y), Point(x + w - 1, y)) <==> p.y == y && x <= p.x < x + w
  {
    var s := LinePixels(Point(x, y), Point(x + w - 1, y));
    HLinePixels(x, y, w, 0);
    forall k | 0 <= k < w ensures s[k] == Point(x + k, y) {
      HLinePixels(x, y, w, k);
    }
    if p.y == y && x <= p.x < x + w {
      assert s[p.x - x] == p;
    }
  }
}
