/** The midpoint circle of Adafruit_GFX.cpp: drawCircle. */
module CircleRaster {
  import opened Arithmetic
  import opened LineRaster

  /** How far the point is off the circle, squared. */
  function Off(x: int, y: int, r: int): int {
    x * x + y * y - r * r
  }

  /** `y` is the height the circle has at `x`: off by at most `y` either way. */
  predicate OnCircle(x: int, y: int, r: int) {
    -y <= Off(x, y, r) <= y
  }

  /** The decision variables of the loop at `(x, y)`. */
  predicate Tracks(f: int, ddFx: int, ddFy: int, x: int, y: int, r: int) {
    f == (x + 1) * (x + 1) + y * y - y - r * r && ddFx == 2 * x + 1 && ddFy == -2 * y
  }

  /** While x < y the bound is strict on one side, which fixes the height. */
  predicate InOctant(x: int, y: int, r: int) {
    OnCircle(x, y, r) && (x < y ==> Off(x, y, r) <= y - 1)
  }

  lemma Square(a: int)
    ensures (a + 1) * (a + 1) == a * a + 2 * a + 1
  {
  }

  lemma TracksOff(f: int, ddFx: int, ddFy: int, x: int, y: int, r: int)
    requires ddFx == 2 * x + 1 && ddFy == -2 * y
    ensures Tracks(f, ddFx, ddFy, x, y, r) <==> f == Off(x, y, r) + 2 * x + 1 - y
  {
    Square(x);
  }

  lemma NextOff(x: int, y: int, r: int)
    ensures Off(x + 1, y, r) == Off(x, y, r) + 2 * x + 1
    ensures Off(x, y - 1, r) == Off(x, y, r) - 2 * y + 1
  {
    Square(x);
    Square(y - 1);
  }

  /** One pass of the loop body on the decision variables: it keeps them on track, and the new
      point is the circle's height at the next x. */
  lemma CircleStep(f: int, ddFx: int, ddFy: int, x: nat, y: nat, r: nat)
    requires x < y && Tracks(f, ddFx, ddFy, x, y, r) && InOctant(x, y, r)
    ensures var y' := if f >= 0 then y - 1 else y;
            var ddFy' := if f >= 0 then ddFy + 2 else ddFy;
            var f' := if f >= 0 then f + ddFy' else f;
            Tracks(f' + (ddFx + 2), ddFx + 2, ddFy', x + 1, y', r) && InOctant(x + 1, y', r)
    ensures -2 * y <= f <= 2 * x
  {
    TracksOff(f, ddFx, ddFy, x, y, r);
    NextOff(x, y, r);
    if f >= 0 {
      NextOff(x + 1, y, r);
      TracksOff(f + ddFy + 2 + (ddFx + 2), ddFx + 2, ddFy + 2, x + 1, y - 1, r);
    } else {
      TracksOff(f + (ddFx + 2), ddFx + 2, ddFy, x + 1, y, r);
    }
  }

  /** The strict bound leaves one height only. */
  lemma HeightUnique(x: int, y: int, z: int, r: int)
    requires y >= 0 && z >= 0 && -y <= Off(x, y, r) < y && -z <= Off(x, z, r) < z
    ensures y == z
  {
    if y < z {
      Gap(y, z);
    } else if z < y {
      Gap(z, y);
    }
  }

  lemma Gap(y: nat, z: nat)
    requires y < z
    ensures z * z - y * y >= y + z
  {
    assert z * z - y * y == (z - y) * (z + y);
    AtLeast(z - y, z + y);
  }

  // ---------- the plotted points ----------

  /** The eight pixels of one pass, in plotting order. */
  function Octet(c: Point, x: int, y: int): seq<Point> {
    [Point(c.x + x, c.y + y), Point(c.x - x, c.y + y), Point(c.x + x, c.y - y), Point(c.x - x, c.y - y),
     Point(c.x + y, c.y + x), Point(c.x - y, c.y + x), Point(c.x + y, c.y - x), Point(c.x - y, c.y - x)]
  }

  function Axis(c: Point, r: int): seq<Point> {
    [Point(c.x, c.y + r), Point(c.x, c.y - r), Point(c.x + r, c.y), Point(c.x - r, c.y)]
  }

  /** The octets at x = 1, 2, ... with the given heights. */
  function Octets(c: Point, ys: seq<int>): seq<Point> {
    if ys == [] then [] else Octets(c, ys[..|ys| - 1]) + Octet(c, |ys|, ys[|ys| - 1])
  }

  function Circle(c: Point, r: int, ys: seq<int>): seq<Point> {
    Axis(c, r) + Octets(c, ys)
  }

  /** The heights drawn: the circle's at each x, as long as x stays below the height. */
  ghost predicate Heights(ys: seq<int>, r: int) {
    && (forall i :: 0 <= i < |ys| ==> InOctant(i + 1, ys[i], r) && ys[i] >= 0)
    && (forall i :: 0 <= i < |ys| - 1 ==> i + 1 < ys[i])
    && (forall i :: 0 <= i < |ys| - 1 ==> ys[i + 1] == ys[i] || ys[i + 1] == ys[i] - 1)
    && (|ys| > 0 ==> r > 0 && (ys[0] == r || ys[0] == r - 1))
  }

  /** The eighth of the circle is complete: the last x has reached its height. */
  ghost predicate Complete(ys: seq<int>, r: int) {
    if r <= 0 then ys == [] else |ys| > 0 && |ys| >= ys[|ys| - 1]
  }

  /** The three reflections that generate all eight. */
  function Reflections(c: Point, p: Point): seq<Point> {
    [Point(2 * c.x - p.x, p.y), Point(p.x, 2 * c.y - p.y), Point(c.x + (p.y - c.y), c.y + (p.x - c.x))]
  }

  lemma {:induction false} InOctets(c: Point, ys: seq<int>, p: Point)
    ensures p in Octets(c, ys) <==> exists i :: 0 <= i < |ys| && p in Octet(c, i + 1, ys[i])
  {
    if ys != [] {
      var k := |ys| - 1;
      var front := ys[..k];
      InOctets(c, front, p);
      assert forall i :: 0 <= i < k ==> front[i] == ys[i];
      if p in Octet(c, k + 1, ys[k]) {
        assert 0 <= k < |ys| && p in Octet(c, k + 1, ys[k]);
      }
    }
  }

  /** The plotted set is closed under the eight reflections. */
  lemma CircleSymmetric(c: Point, r: int, ys: seq<int>, p: Point, q: Point)
    requires p in Circle(c, r, ys) && q in Reflections(c, p)
    ensures q in Circle(c, r, ys)
  {
    if p in Axis(c, r) {
      assert q in Axis(c, r);
    } else {
      InOctets(c, ys, p);
      var i :| 0 <= i < |ys| && p in Octet(c, i + 1, ys[i]);
      OctetSymmetric(c, i + 1, ys[i], p, q);
      InOctets(c, ys, q);
    }
  }

  lemma OctetSymmetric(c: Point, x: int, y: int, p: Point, q: Point)
    requires p in Octet(c, x, y) && q in Reflections(c, p)
    ensures q in Octet(c, x, y)
  {
  }

  /** Every plotted point lies on the circle to within its longer coordinate, squared. */
  lemma CircleIsRound(c: Point, r: nat, ys: seq<int>, p: Point)
    requires Heights(ys, r) && p in Circle(c, r, ys)
    ensures var m := Max(Abs(p.x - c.x), Abs(p.y - c.y)); -m <= Off(p.x - c.x, p.y - c.y, r) <= m
  {
    if p in Axis(c, r) {
      RoundAt(p.x - c.x, p.y - c.y, 0, r, r);
    } else {
      InOctets(c, ys, p);
      var i :| 0 <= i < |ys| && p in Octet(c, i + 1, ys[i]);
      OctetIsRound(c, i + 1, ys[i], r, p);
    }
  }

  lemma OctetIsRound(c: Point, x: nat, y: nat, r: nat, p: Point)
    requires OnCircle(x, y, r) && p in Octet(c, x, y)
    ensures var m := Max(Abs(p.x - c.x), Abs(p.y - c.y)); -m <= Off(p.x - c.x, p.y - c.y, r) <= m
  {
    var u, v := p.x - c.x, p.y - c.y;
    assert (Abs(u) == x && Abs(v) == y) || (Abs(u) == y && Abs(v) == x);
    RoundAt(u, v, x, y, r);
  }

  lemma RoundAt(u: int, v: int, x: nat, y: nat, r: nat)
    requires OnCircle(x, y, r)
    requires (Abs(u) == x && Abs(v) == y) || (Abs(u) == y && Abs(v) == x)
    ensures var m := Max(Abs(u), Abs(v)); -m <= Off(u, v, r) <= m
  {
    SameSquares(u, v, x, y);
  }

  lemma SameSquares(u: int, v: int, x: nat, y: nat)
    requires (Abs(u) == x && Abs(v) == y) || (Abs(u) == y && Abs(v) == x)
    ensures u * u + v * v == x * x + y * y && Max(Abs(u), Abs(v)) >= y
  {
    AbsSquare(u);
    AbsSquare(v);
  }

  lemma AbsSquare(u: int)
    ensures u * u == Abs(u) * Abs(u)
  {
  }

  // ---------- drawCircle ----------

  /** Draws the axis points and then one octet per x, with the heights returned as `ys`. All
      decision variables stay 16-bit values. */
  method DrawCircle(gfx: Gfx, c: Point, r: int) returns (ghost ys: seq<int>)
    requires -16383 <= r <= 16383
    requires Int16(c.x - Abs(r)) && Int16(c.x + Abs(r)) && Int16(c.y - Abs(r)) && Int16(c.y + Abs(r))
    modifies gfx
    ensures gfx.plotted == old(gfx.plotted) + Circle(c, r, ys)
    ensures Heights(ys, r) && Complete(ys, r)
  {
    var f, ddFx, ddFy, x, y := 1 - r, 1, -2 * r, 0, r;
    gfx.DrawPixel(c.x, c.y + r);
    gfx.DrawPixel(c.x, c.y - r);
    gfx.DrawPixel(c.x + r, c.y);
    gfx.DrawPixel(c.x - r, c.y);
    ys := [];
    ghost var start := old(gfx.plotted);
    assert gfx.plotted == start + Circle(c, r, ys);
    while x < y
      invariant OnTrack(f, ddFx, ddFy, x, y, r, ys)
      invariant gfx.plotted == start + Circle(c, r, ys)
      decreases y - x
    {
      f, ddFx, ddFy, x, y := NextPoint(f, ddFx, ddFy, x, y, r);
      DrawOctet(gfx, c, x, y);
      HeightsGrow(c, ys, r, y);
      Regroup(start, Circle(c, r, ys), Octet(c, x, y));
      ys := ys + [y];
    }
  }

  /** The loop's variables: the decision variables follow the point reached, which is the last
      height drawn; a radius of 0 or less never enters the loop. */
  ghost predicate OnTrack(f: int, ddFx: int, ddFy: int, x: int, y: int, r: int, ys: seq<int>) {
    && x == |ys| && y == (if ys == [] then r else ys[x - 1])
    && Heights(ys, r)
    && (if r <= 0 then ys == [] else 0 <= y <= r && Tracks(f, ddFx, ddFy, x, y, r) && InOctant(x, y, r))
  }

  /** The body of the loop up to the drawing. */
  method NextPoint(f0: int, ddFx0: int, ddFy0: int, x0: nat, y0: nat, ghost r: nat)
      returns (f: int, ddFx: int, ddFy: int, x: nat, y: nat)
    requires x0 < y0 <= r <= 16383 && Tracks(f0, ddFx0, ddFy0, x0, y0, r) && InOctant(x0, y0, r)
    ensures x == x0 + 1 && (y == y0 || y == y0 - 1) && Tracks(f, ddFx, ddFy, x, y, r) && InOctant(x, y, r)
    ensures Int16(f0) && Int16(ddFx) && Int16(ddFy)
  {
    CircleStep(f0, ddFx0, ddFy0, x0, y0, r);
    f, ddFx, ddFy, x, y := f0, ddFx0, ddFy0, x0, y0;
    if f >= 0 {
      y := y - 1;
      ddFy := ddFy + 2;
      f := f + ddFy;
    }
    x := x + 1;
    ddFx := ddFx + 2;
    f := f + ddFx;
  }

  lemma Regroup(a: seq<Point>, b: seq<Point>, c: seq<Point>)
    ensures a + b + c == a + (b + c)
  {
  }

  lemma {:induction false} HeightsGrow(c: Point, ys: seq<int>, r: int, y: int)
    requires Heights(ys, r) && r > 0 && InOctant(|ys| + 1, y, r) && y >= 0
    requires var last := if ys == [] then r else ys[|ys| - 1];
             |ys| < last && (y == last || y == last - 1)
    ensures Heights(ys + [y], r)
    ensures Circle(c, r, ys + [y]) == Circle(c, r, ys) + Octet(c, |ys| + 1, y)
  {
    LastDropped(ys, y);
    OctetsGrow(c, ys, y);
    HeightsMore(ys, r, y);
  }

  lemma {:induction false} OctetsGrow(c: Point, ys: seq<int>, y: int)
    ensures Octets(c, ys + [y]) == Octets(c, ys) + Octet(c, |ys| + 1, y)
  {
    LastDropped(ys, y);
  }

  lemma {:induction false} HeightsMore(ys: seq<int>, r: int, y: int)
    requires Heights(ys, r) && r > 0 && InOctant(|ys| + 1, y, r) && y >= 0
    requires var last := if ys == [] then r else ys[|ys| - 1];
             |ys| < last && (y == last || y == last - 1)
    ensures Heights(ys + [y], r)
  {
    LastDropped(ys, y);
    AllMore(ys, y, (x, h) => InOctant(x, h, r) && h >= 0);
  }

  lemma AllMore(ys: seq<int>, y: int, inside: (int, int) -> bool)
    requires (forall i :: 0 <= i < |ys| ==> inside(i + 1, ys[i])) && inside(|ys| + 1, y)
    ensures forall i :: 0 <= i < |ys| + 1 ==> inside(i + 1, (ys + [y])[i])
  {
  }

  lemma LastDropped(ys: seq<int>, y: int)
    ensures var more := ys + [y];
            more[..|ys|] == ys && more[|ys|] == y && forall i :: 0 <= i < |ys| ==> more[i] == ys[i]
  {
  }

  method DrawOctet(gfx: Gfx, c: Point, x: int, y: int)
    modifies gfx
    ensures gfx.plotted == old(gfx.plotted) + Octet(c, x, y)
  {
    gfx.DrawPixel(c.x + x, c.y + y);
    gfx.DrawPixel(c.x - x, c.y + y);
    gfx.DrawPixel(c.x + x, c.y - y);
    gfx.DrawPixel(c.x - x, c.y - y);
    gfx.DrawPixel(c.x + y, c.y + x);
    gfx.DrawPixel(c.x - y, c.y + x);
    gfx.DrawPixel(c.x + y, c.y - x);
    gfx.DrawPixel(c.x - y, c.y - x);
  }
}
