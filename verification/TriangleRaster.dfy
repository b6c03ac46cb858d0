/** The incremental triangle fill of Adafruit_GFX.cpp: fillTriangle. */
module TriangleRaster {
  import opened Arithmetic
  import opened LineRaster

  /** Coordinates whose differences fit 16 bits and whose products fit 32. */
  predicate Small(p: Point) {
    -16383 <= p.x <= 16383 && -16383 <= p.y <= 16383
  }

  function Min(a: int, b: int): int {
    if a < b then a else b
  }

  /** Division as the code performs it: towards zero. */
  function Quot(a: int, b: int): int
    requires b > 0
  {
    if a >= 0 then a / b else -((-a) / b)
  }

  predicate Int32(a: int) {
    -0x8000_0000 <= a < 0x8000_0000
  }

  // ---------- the spans of a triangle ----------

  /** One scanline, both ends included. */
  datatype Span = Span(y: int, lo: int, hi: int)

  /** The longhand formula of the source's comments for where the edge from `p` down to `q`
      crosses scanline `y`. */
  predicate IsCrossing(p: Point, q: Point, y: int, x: int)
    requires p.y < q.y
  {
    x == p.x + Quot((q.x - p.x) * (y - p.y), q.y - p.y)
  }

  /** Chosen by the formula, so that its products and quotient appear only in the lemmas about it. */
  ghost function Crossing(p: Point, q: Point, y: int): int
    requires p.y < q.y
  {
    HasCrossing(p, q, y);
    var x :| IsCrossing(p, q, y, x);
    x
  }

  lemma HasCrossing(p: Point, q: Point, y: int)
    requires p.y < q.y
    ensures exists x :: IsCrossing(p, q, y, x)
  {
    assert IsCrossing(p, q, y, p.x + Quot((q.x - p.x) * (y - p.y), q.y - p.y));
  }

  lemma CrossingIs(p: Point, q: Point, y: int, x: int)
    requires p.y < q.y && IsCrossing(p, q, y, x)
    ensures x == Crossing(p, q, y)
  {
  }

  function Between(y: int, a: int, b: int): Span {
    Span(y, Min(a, b), Max(a, b))
  }

  predicate Sorted(p: Point, q: Point, r: Point) {
    p.y <= q.y <= r.y
  }

  /** The span of scanline `y`: down to the middle vertex between the edges 0-1 and 0-2, from
      there between 1-2 and 0-2; a flat bottom belongs to the upper part. */
  ghost function SpanAt(p: Point, q: Point, r: Point, y: int): Span
    requires Sorted(p, q, r) && p.y < r.y && p.y <= y <= r.y
  {
    if y < q.y || q.y == r.y then Between(y, Crossing(p, q, y), Crossing(p, r, y))
    else Between(y, Crossing(q, r, y), Crossing(p, r, y))
  }

  ghost function Spans(p: Point, q: Point, r: Point): (s: seq<Span>)
    requires Sorted(p, q, r)
    ensures |s| == r.y - p.y + 1
  {
    if p.y == r.y then [Span(p.y, Min(Min(p.x, q.x), r.x), Max(Max(p.x, q.x), r.x))]
    else seq(r.y - p.y + 1, i requires 0 <= i <= r.y - p.y => SpanAt(p, q, r, p.y + i))
  }

  // ---------- what the spans promise ----------

  lemma QuotBounds(dx: int, t: nat, d: nat)
    requires d > 0 && t <= d
    ensures Min(0, dx) <= Quot(dx * t, d) <= Max(0, dx)
    ensures t == 0 ==> Quot(dx * t, d) == 0
    ensures t == d ==> Quot(dx * t, d) == dx
  {
    if dx >= 0 {
      NatQuot(dx, t, d);
    } else {
      assert -(dx * t) == (-dx) * t;
      NatQuot(-dx, t, d);
    }
  }

  lemma NatQuot(x: nat, t: nat, d: nat)
    requires d > 0 && t <= d
    ensures x * t >= 0 && 0 <= (x * t) / d <= x
    ensures t == 0 ==> (x * t) / d == 0
    ensures t == d ==> (x * t) / d == x
  {
    var q := (x * t) / d;
    assert x * t == d * q + (x * t) % d;
    MulMono(x, t, d);
    if q > x {
      MulMono(d, x + 1, q);
    }
    if t == d && q < x {
      MulMono(d, q + 1, x);
    }
  }

  /** A crossing stays between the ends of its edge, and meets them at both. */
  lemma CrossingInside(p: Point, q: Point, y: int)
    requires p.y < q.y && p.y <= y <= q.y
    ensures Min(p.x, q.x) <= Crossing(p, q, y) <= Max(p.x, q.x)
    ensures Crossing(p, q, p.y) == p.x && Crossing(p, q, q.y) == q.x
  {
    CrossingAt(p, q, y);
    CrossingAt(p, q, p.y);
    CrossingAt(p, q, q.y);
  }

  lemma CrossingAt(p: Point, q: Point, y: int)
    requires p.y < q.y && p.y <= y <= q.y
    ensures Min(p.x, q.x) <= Crossing(p, q, y) <= Max(p.x, q.x)
    ensures y == p.y ==> Crossing(p, q, y) == p.x
    ensures y == q.y ==> Crossing(p, q, y) == q.x
  {
    var x := p.x + Quot((q.x - p.x) * (y - p.y), q.y - p.y);
    QuotBounds(q.x - p.x, y - p.y, q.y - p.y);
    CrossingIs(p, q, y, x);
  }

  /** How far to the right of the edge, itself included, `x` lies on scanline `y`, times the height of
      the edge. */
  function Offset(p: Point, q: Point, y: int, x: int): int {
    (x - p.x) * (q.y - p.y) - (q.x - p.x) * (y - p.y)
  }

  lemma QuotRounds(a: int, d: int, k: int)
    requires d > 0
    ensures -d < Quot(a, d) * d - a < d
    ensures k * d <= a ==> k <= Quot(a, d)
    ensures k * d >= a ==> k >= Quot(a, d)
  {
    var x := Quot(a, d);
    assert if a >= 0 then x * d <= a < x * d + d else x * d - d < a <= x * d;
    if k > x {
      MulMono(d, x + 1, k);
    } else if k < x {
      MulMono(d, k, x - 1);
    }
  }

  /** The crossing is less than a pixel away from the ideal edge, and no pixel lies between them:
      whatever is on or left of the edge is on or left of the crossing, and likewise right. */
  lemma CrossingRounds(p: Point, q: Point, y: int, x: int)
    requires p.y < q.y
    ensures -(q.y - p.y) < Offset(p, q, y, Crossing(p, q, y)) < q.y - p.y
    ensures Offset(p, q, y, x) <= 0 ==> x <= Crossing(p, q, y)
    ensures Offset(p, q, y, x) >= 0 ==> x >= Crossing(p, q, y)
  {
    var a, d := (q.x - p.x) * (y - p.y), q.y - p.y;
    QuotRounds(a, d, x - p.x);
    CrossingIs(p, q, y, p.x + Quot(a, d));
  }

  predicate Covers(s: Span, v: Point) {
    s.y == v.y && s.lo <= v.x <= s.hi
  }

  /** Each scanline from the top vertex to the bottom one occurs exactly once, in order, never
      leaves the vertices' x range, and the three vertices are covered. */
  lemma SpansMeaning(p: Point, q: Point, r: Point)
    requires Sorted(p, q, r)
    ensures var s := Spans(p, q, r);
            && (forall i :: 0 <= i < |s| ==> s[i].y == p.y + i && SpanInside(p, q, r, s[i]))
            && Covers(s[0], p) && Covers(s[q.y - p.y], q) && Covers(s[r.y - p.y], r)
  {
    if p.y < r.y {
      var s := Spans(p, q, r);
      forall i | 0 <= i < |s| ensures s[i].y == p.y + i && SpanInside(p, q, r, s[i]) {
        SpanAtInside(p, q, r, p.y + i);
      }
      VerticesCovered(p, q, r);
    }
  }

  predicate SpanInside(p: Point, q: Point, r: Point, s: Span) {
    Min(Min(p.x, q.x), r.x) <= s.lo <= s.hi <= Max(Max(p.x, q.x), r.x)
  }

  lemma SpanAtInside(p: Point, q: Point, r: Point, y: int)
    requires Sorted(p, q, r) && p.y < r.y && p.y <= y <= r.y
    ensures SpanInside(p, q, r, SpanAt(p, q, r, y))
  {
    CrossingInside(p, r, y);
    if y < q.y || q.y == r.y {
      CrossingInside(p, q, y);
    } else {
      CrossingInside(q, r, y);
    }
  }

  lemma VerticesCovered(p: Point, q: Point, r: Point)
    requires Sorted(p, q, r) && p.y < r.y
    ensures Covers(SpanAt(p, q, r, p.y), p) && Covers(SpanAt(p, q, r, q.y), q) && Covers(SpanAt(p, q, r, r.y), r)
  {
    CrossingInside(p, r, p.y);
    if p.y < q.y {
      CrossingInside(p, q, p.y);
    }
    if q.y < r.y {
      CrossingInside(q, r, q.y);
    }
  }

  /** The edge opposite the long one on this scanline, by its ends. */
  function ShortEdge(p: Point, q: Point, r: Point, y: int): (Point, Point) {
    if y < q.y || q.y == r.y then (p, q) else (q, r)
  }

  /** The point is on or between the long edge and the one opposite, and so in the triangle. */
  predicate InTriangle(p: Point, q: Point, r: Point, v: Point) {
    var (a, b) := ShortEdge(p, q, r, v.y);
    var long, short := Offset(p, r, v.y, v.x), Offset(a, b, v.y, v.x);
    p.y <= v.y <= r.y && ((long <= 0 <= short) || (short <= 0 <= long))
  }

  /** The point is less than a pixel to the side of one of the two edges, or between them. */
  predicate NearTriangle(p: Point, q: Point, r: Point, v: Point) {
    var (a, b) := ShortEdge(p, q, r, v.y);
    && (Offset(p, r, v.y, v.x + 1) > 0 || Offset(a, b, v.y, v.x + 1) > 0)
    && (Offset(p, r, v.y, v.x - 1) < 0 || Offset(a, b, v.y, v.x - 1) < 0)
  }

  /** No pixel of the ideal triangle is missed, and none is filled a whole pixel outside it. */
  lemma SpanIsTriangle(p: Point, q: Point, r: Point, v: Point)
    requires Sorted(p, q, r) && p.y < r.y && p.y <= v.y <= r.y
    ensures InTriangle(p, q, r, v) ==> Covers(SpanAt(p, q, r, v.y), v)
    ensures Covers(SpanAt(p, q, r, v.y), v) ==> NearTriangle(p, q, r, v)
  {
    var (a, b) := ShortEdge(p, q, r, v.y);
    CrossingRounds(p, r, v.y, v.x);
    CrossingRounds(a, b, v.y, v.x);
    CrossingRounds(p, r, v.y, v.x + 1);
    CrossingRounds(a, b, v.y, v.x + 1);
    CrossingRounds(p, r, v.y, v.x - 1);
    CrossingRounds(a, b, v.y, v.x - 1);
  }

  // ---------- fillTriangle ----------

  /** The vertices ordered by y with the code's three conditional exchanges. */
  function ByY(a: Point, b: Point, c: Point): (r: (Point, Point, Point))
    ensures Sorted(r.0, r.1, r.2) && multiset{r.0, r.1, r.2} == multiset{a, b, c}
  {
    var (a1, b1) := if a.y > b.y then (b, a) else (a, b);
    var (b2, c2) := if b1.y > c.y then (c, b1) else (b1, c);
    var (a3, b3) := if a1.y > b2.y then (b2, a1) else (a1, b2);
    (a3, b3, c2)
  }

  /** A canvas whose drawFastHLine records the line drawn. */
  class Canvas {
    var lines: seq<Span>

    constructor ()
      ensures lines == []
    {
      lines := [];
    }

    method DrawFastHLine(x: int, y: int, w: int)
      requires Int16(x) && Int16(y) && Int16(w) && w >= 1
      modifies this
      ensures lines == old(lines) + [Span(y, x, x + w - 1)]
    {
      lines := lines + [Span(y, x, x + w - 1)];
    }

    method DrawBetween(y: int, a: int, b: int)
      requires Small(Point(a, y)) && Small(Point(b, y))
      modifies this
      ensures lines == old(lines) + [Between(y, a, b)]
    {
      var l, h := a, b;
      if l > h {
        l, h := h, l;
      }
      DrawFastHLine(l, y, h - l + 1);
    }

    method FillTriangle(a: Point, b: Point, c: Point)
      requires Small(a) && Small(b) && Small(c)
      modifies this
      ensures var v := ByY(a, b, c); lines == old(lines) + Spans(v.0, v.1, v.2)
    {
      var p, q, r := a, b, c;
      if p.y > q.y {
        p, q := q, p;
      }
      if q.y > r.y {
        q, r := r, q;
      }
      if p.y > q.y {
        p, q := q, p;
      }
      assert (p, q, r) == ByY(a, b, c);
      FillSorted(p, q, r);
    }

    method FillSorted(p: Point, q: Point, r: Point)
      requires Small(p) && Small(q) && Small(r) && Sorted(p, q, r)
      modifies this
      ensures lines == old(lines) + Spans(p, q, r)
    {
      if p.y == r.y {
        FillLevel(p, q, r);
        return;
      }
      ghost var s, start := Spans(p, q, r), lines;
      var last := if q.y == r.y then q.y else q.y - 1;
      var y := FillUpper(p, q, r, last);
      FillLower(p, q, r, y, start);
      assert s[..|s|] == s;
    }

    /** All three vertices on one line. */
    method FillLevel(p: Point, q: Point, r: Point)
      requires Small(p) && Small(q) && Small(r) && p.y == q.y == r.y
      modifies this
      ensures lines == old(lines) + Spans(p, q, r)
    {
      var lo, hi := p.x, p.x;
      if q.x < lo {
        lo := q.x;
      } else if q.x > hi {
        hi := q.x;
      }
      if r.x < lo {
        lo := r.x;
      } else if r.x > hi {
        hi := r.x;
      }
      DrawFastHLine(lo, p.y, hi - lo + 1);
    }

    /** The first loop; `sa` and `sb` are kept as running sums instead of products. */
    method FillUpper(p: Point, q: Point, r: Point, last: int) returns (y: int)
      requires Small(p) && Small(q) && Small(r) && Sorted(p, q, r) && p.y < r.y
      requires last == if q.y == r.y then q.y else q.y - 1
      modifies this
      ensures y == (if p.y <= last then last + 1 else p.y)
      ensures lines == old(lines) + Spans(p, q, r)[..y - p.y]
    {
      ghost var s := Spans(p, q, r);
      var dx01, dy01, dx02, dy02 := q.x - p.x, q.y - p.y, r.x - p.x, r.y - p.y;
      var sa, sb := 0, 0;
      y := p.y;
      while y <= last
        invariant y == p.y || p.y <= y <= last + 1
        invariant sa == dx01 * (y - p.y) && sb == dx02 * (y - p.y) && Int32(sa) && Int32(sb)
        invariant lines == old(lines) + s[..y - p.y]
        decreases last + 1 - y
      {
        var a := p.x + Quot(sa, dy01);
        var b := p.x + Quot(sb, dy02);
        EdgeStep(p, q, y, a, sa);
        EdgeStep(p, r, y, b, sb);
        SumFits(dx01, y + 1 - p.y);
        SumFits(dx02, y + 1 - p.y);
        sa := sa + dx01;
        sb := sb + dx02;
        SpanIndex(p, q, r, y, Between(y, a, b));
        Grow(old(lines), s, y - p.y, Between(y, a, b));
        DrawBetween(y, a, b);
        y := y + 1;
      }
    }

    /** The second loop, from the scanline after those already drawn down to the last. */
    method FillLower(p: Point, q: Point, r: Point, y0: int, ghost start: seq<Span>)
      requires Small(p) && Small(q) && Small(r) && Sorted(p, q, r) && p.y < r.y
      requires y0 == if q.y == r.y then q.y + 1 else q.y
      requires lines == start + Spans(p, q, r)[..y0 - p.y]
      modifies this
      ensures lines == start + Spans(p, q, r)[..r.y - p.y + 1]
    {
      ghost var s := Spans(p, q, r);
      var dx02, dy02, dx12, dy12 := r.x - p.x, r.y - p.y, r.x - q.x, r.y - q.y;
      var y := y0;
      var sa, sb := dx12 * (y - q.y), dx02 * (y - p.y);
      SumFits(dx12, y - q.y);
      SumFits(dx02, y - p.y);
      while y <= r.y
        invariant y0 <= y <= r.y + 1
        invariant sa == dx12 * (y - q.y) && sb == dx02 * (y - p.y) && Int32(sa) && Int32(sb)
        invariant lines == start + s[..y - p.y]
        decreases r.y + 1 - y
      {
        var a := q.x + Quot(sa, dy12);
        var b := p.x + Quot(sb, dy02);
        EdgeStep(q, r, y, a, sa);
        EdgeStep(p, r, y, b, sb);
        SumFits(dx12, y + 1 - q.y);
        SumFits(dx02, y + 1 - p.y);
        sa := sa + dx12;
        sb := sb + dx02;
        SpanIndex(p, q, r, y, Between(y, a, b));
        Grow(start, s, y - p.y, Between(y, a, b));
        DrawBetween(y, a, b);
        y := y + 1;
      }
    }
  }

  lemma SpanIndex(p: Point, q: Point, r: Point, y: int, span: Span)
    requires Sorted(p, q, r) && p.y < r.y && p.y <= y <= r.y && span == SpanAt(p, q, r, y)
    ensures Spans(p, q, r)[y - p.y] == span
  {
    var i := y - p.y;
    assert Spans(p, q, r)[i] == SpanAt(p, q, r, p.y + i);
  }

  lemma Grow(start: seq<Span>, s: seq<Span>, k: nat, span: Span)
    requires k < |s| && s[k] == span
    ensures start + s[..k] + [span] == start + s[..k + 1]
  {
  }

  /** A running sum gives the crossing of its edge, and grows to the next one's. */
  lemma EdgeStep(p: Point, q: Point, y: int, a: int, sum: int)
    requires p.y < q.y && p.y <= y <= q.y
    requires sum == (q.x - p.x) * (y - p.y) && a == p.x + Quot(sum, q.y - p.y)
    ensures a == Crossing(p, q, y) && Min(p.x, q.x) <= a <= Max(p.x, q.x)
    ensures sum + (q.x - p.x) == (q.x - p.x) * (y + 1 - p.y)
  {
    CrossingIs(p, q, y, a);
    CrossingAt(p, q, y);
    Distribute(q.x - p.x, y - p.y);
  }

  /** The running sums stay within 32 bits. */
  lemma SumFits(dx: int, t: nat)
    requires -32766 <= dx <= 32766 && t <= 32767
    ensures Int32(dx * t)
  {
    MulMono(t, dx, 32766);
    MulMono(t, -32766, dx);
  }

  lemma Distribute(d: int, t: int)
    ensures d * (t + 1) == d * t + d
  {
  }

  // ---------- pixels ----------

  /** The pixels the generic drawFastHLine plots for each span. */
  ghost function Rows(s: seq<Span>): seq<Point> {
    if s == [] then []
    else
      var last := s[|s| - 1];
      Rows(s[..|s| - 1]) + LinePixels(Point(last.lo, last.y), Point(last.hi, last.y))
  }

  /** A pixel is plotted exactly when the span of its row covers it. */
  lemma {:induction false} InRows(s: seq<Span>, v: Point)
    requires forall i :: 0 <= i < |s| ==> s[i].lo <= s[i].hi
    ensures v in Rows(s) <==> exists i :: 0 <= i < |s| && Covers(s[i], v)
  {
    if s != [] {
      var k := |s| - 1;
      var front, last := s[..k], s[k];
      InRows(front, v);
      HLineCovers(last.lo, last.y, last.hi - last.lo + 1, v);
      InBoth(Rows(front), LinePixels(Point(last.lo, last.y), Point(last.hi, last.y)), v);
      OneMoreSpan(front, last, v);
      assert s == front + [last];
    }
  }

  lemma OneMoreSpan(front: seq<Span>, last: Span, v: Point)
    ensures var s := front + [last];
            (exists i :: 0 <= i < |s| && Covers(s[i], v)) <==>
            (exists i :: 0 <= i < |front| && Covers(front[i], v)) || Covers(last, v)
  {
    var s := front + [last];
    assert s[|front|] == last;
    if i :| 0 <= i < |front| && Covers(front[i], v) {
      assert s[i] == front[i];
    }
  }

  /** The filled triangle contains its three vertices and nothing outside their bounding box. */
  lemma TrianglePixels(a: Point, b: Point, c: Point, v: Point)
    ensures var t := ByY(a, b, c);
            var px := Rows(Spans(t.0, t.1, t.2));
            && a in px && b in px && c in px
            && (v in px ==> (Min(Min(a.x, b.x), c.x) <= v.x <= Max(Max(a.x, b.x), c.x)
                          && Min(Min(a.y, b.y), c.y) <= v.y <= Max(Max(a.y, b.y), c.y)))
  {
    var t := ByY(a, b, c);
    VerticesPlotted(t.0, t.1, t.2);
    if v in Rows(Spans(t.0, t.1, t.2)) {
      InsideBox(t.0, t.1, t.2, v);
    }
  }

  lemma VerticesPlotted(a: Point, b: Point, c: Point)
    requires Sorted(a, b, c)
    ensures var px := Rows(Spans(a, b, c)); a in px && b in px && c in px
  {
    SpansMeaning(a, b, c);
    var s := Spans(a, b, c);
    InRows(s, a);
    InRows(s, b);
    InRows(s, c);
  }

  lemma InsideBox(a: Point, b: Point, c: Point, v: Point)
    requires Sorted(a, b, c) && v in Rows(Spans(a, b, c))
    ensures Min(Min(a.x, b.x), c.x) <= v.x <= Max(Max(a.x, b.x), c.x) && a.y <= v.y <= c.y
  {
    SpansMeaning(a, b, c);
    InRows(Spans(a, b, c), v);
  }
}
