/** The display driver of Adafruit_ILI9341.cpp against its controller: bytes on the bus open an
    address window and stream colours into it. */
module DisplayDriver {
  import opened LineRaster

  type Byte = b: int | 0 <= b < 256
  type Word = w: int | 0 <= w < 65536
  type Frame = map<Point, Word>

  const CASET: Byte := 0x2A
  const PASET: Byte := 0x2B
  const RAMWR: Byte := 0x2C

  // ---------- the controller ----------

  datatype Mode = ColumnArgs | RowArgs | Pixels | Other

  /** `args` holds the bytes of a parameter list or a colour that is not complete yet. */
  datatype Chip = Chip(mode: Mode, args: seq<Byte>, sc: Word, ec: Word, sp: Word, ep: Word,
                       col: int, row: int, frame: Frame)

  /** A command byte. RAMWR moves the write pointer to the start of the window. */
  function Command(c: Chip, code: Byte): Chip {
    if code == CASET then c.(mode := ColumnArgs, args := [])
    else if code == PASET then c.(mode := RowArgs, args := [])
    else if code == RAMWR then c.(mode := Pixels, args := [], col := c.sc, row := c.sp)
    else c.(mode := Other, args := [])
  }

  /** A data byte. */
  function Data(c: Chip, b: Byte): Chip {
    match c.mode
    case ColumnArgs =>
      if |c.args| != 3 then c.(args := c.args + [b])
      else c.(mode := Other, args := [], sc := Join(c.args[0], c.args[1]), ec := Join(c.args[2], b))
    case RowArgs =>
      if |c.args| != 3 then c.(args := c.args + [b])
      else c.(mode := Other, args := [], sp := Join(c.args[0], c.args[1]), ep := Join(c.args[2], b))
    case Pixels =>
      if |c.args| != 1 then c.(args := [b])
      else Store(c, Join(c.args[0], b))
    case Other => c
  }

  function Join(hi: Byte, lo: Byte): Word {
    hi * 256 + lo
  }

  /** One colour lands under the write pointer, which walks the window row by row. */
  function Store(c: Chip, color: Word): Chip {
    c.(args := [],
       frame := Plot(c.frame, Point(c.col, c.row), color),
       col := if c.col >= c.ec then c.sc else c.col + 1,
       row := if c.col < c.ec then c.row else if c.row >= c.ep then c.sp else c.row + 1)
  }

  /** Memory has a cell for each point of the screen; other points have none. */
  function Plot(f: Frame, p: Point, color: Word): Frame {
    if p in f then f[p := color] else f
  }

  ghost predicate Screen(f: Frame, width: int, height: int) {
    forall p :: p in f <==> 0 <= p.x < width && 0 <= p.y < height
  }

  // ---------- what the generic loops leave ----------

  /** The points of `s` plotted one by one, each clipped to the screen. */
  function Paint(f: Frame, s: seq<Point>, color: Word): Frame {
    if s == [] then f else Plot(Paint(f, s[..|s| - 1], color), s[|s| - 1], color)
  }

  lemma {:induction false} PaintKeeps(f: Frame, s: seq<Point>, color: Word)
    ensures Paint(f, s, color).Keys == f.Keys
  {
    if s != [] {
      PaintKeeps(f, s[..|s| - 1], color);
    }
  }

  /** Painting colours the listed points and leaves the rest of the screen alone. */
  lemma {:induction false} PaintedAt(f: Frame, s: seq<Point>, color: Word, p: Point)
    requires p in f
    ensures p in Paint(f, s, color)
    ensures Paint(f, s, color)[p] == if p in s then color else f[p]
  {
    PaintKeeps(f, s, color);
    if s != [] {
      var front := s[..|s| - 1];
      PaintKeeps(f, front, color);
      PaintedAt(f, front, color, p);
      assert s == front + [s[|s| - 1]];
    }
  }

  /** A frame that differs from `f` by exactly the points of `s` is the painted one. */
  lemma PaintedIs(f: Frame, g: Frame, s: seq<Point>, color: Word)
    requires g.Keys == f.Keys
    requires forall p <- f :: g[p] == if p in s then color else f[p]
    ensures g == Paint(f, s, color)
  {
    PaintKeeps(f, s, color);
    forall p | p in f ensures Paint(f, s, color)[p] == g[p] {
      PaintedAt(f, s, color, p);
    }
  }

  // ---------- streaming into a window ----------

  /** In raster order, `p` comes before cell (k, r) of the window at (x, y) with width `w`. */
  predicate Before(p: Point, x: int, y: int, w: int, r: int, k: int) {
    x <= p.x < x + w && y <= p.y && (p.y < y + r || (p.y == y + r && p.x < x + k))
  }

  predicate Window(c: Chip, w: int, h: int) {
    c.mode == Pixels && c.args == [] && c.ec == c.sc + w - 1 && c.ep == c.sp + h - 1
  }

  /** `r` rows and `k` more colours have been sent since `f` was the frame. */
  ghost predicate Sent(f: Frame, c: Chip, w: int, h: int, r: int, k: int, color: Word) {
    && Window(c, w, h)
    && 0 <= r <= h && 0 <= k <= w
    && (r < h && k < w ==> c.col == c.sc + k && c.row == c.sp + r)
    && (r + 1 < h && k == w ==> c.col == c.sc && c.row == c.sp + r + 1)
    && c.frame.Keys == f.Keys
    && forall p <- f :: c.frame[p] == if Before(p, c.sc, c.sp, w, r, k) then color else f[p]
  }

  lemma StoreStep(f: Frame, c: Chip, w: int, h: int, r: int, k: int, color: Word)
    requires Sent(f, c, w, h, r, k, color) && r < h && k < w
    ensures Sent(f, Store(c, color), w, h, r, k + 1, color)
  {
    var d := Store(c, color);
    forall p | p in f
      ensures d.frame[p] == if Before(p, c.sc, c.sp, w, r, k + 1) then color else f[p]
    {
      assert Before(p, c.sc, c.sp, w, r, k + 1) <==> Before(p, c.sc, c.sp, w, r, k) || p == Point(c.col, c.row);
    }
  }

  lemma RowDone(f: Frame, c: Chip, w: int, h: int, r: int, color: Word)
    requires w > 0 && Sent(f, c, w, h, r, w, color) && r < h
    ensures Sent(f, c, w, h, r + 1, 0, color)
  {
    forall p | p in f
      ensures Before(p, c.sc, c.sp, w, r, w) == Before(p, c.sc, c.sp, w, r + 1, 0)
    {
    }
  }

  // ---------- the driver ----------

  class Ili9341 {
    const width: int
    const height: int
    var chip: Chip

    ghost predicate Valid()
      reads this
    {
      0 < width <= 32767 && 0 < height <= 32767 && Screen(chip.frame, width, height)
    }

    constructor (width: int, height: int, chip: Chip)
      requires 0 < width <= 32767 && 0 < height <= 32767 && Screen(chip.frame, width, height)
      ensures Valid() && this.width == width && this.height == height && this.chip == chip
    {
      this.width, this.height, this.chip := width, height, chip;
    }

    method WriteCommand(code: Byte)
      modifies this
      ensures chip == Command(old(chip), code)
    {
      chip := Command(chip, code);
    }

    method SpiWrite(b: Byte)
      modifies this
      ensures chip == Data(old(chip), b)
    {
      chip := Data(chip, b);
    }

    /** Whatever the controller was doing, the window is now this one and colours are expected. */
    method SetAddrWindow(x0: Word, y0: Word, x1: Word, y1: Word)
      modifies this
      ensures chip == Chip(Pixels, [], x0, x1, y0, y1, x0, y0, old(chip).frame)
    {
      WriteCommand(CASET);
      SendPair(x0, x1);
      WriteCommand(PASET);
      SendPair(y0, y1);
      WriteCommand(RAMWR);
    }

    /** The four data bytes after CASET or PASET. */
    method SendPair(a: Word, b: Word)
      requires (chip.mode == ColumnArgs || chip.mode == RowArgs) && chip.args == []
      modifies this
      ensures chip == if old(chip).mode == ColumnArgs then old(chip).(mode := Other, sc := a, ec := b)
                      else old(chip).(mode := Other, sp := a, ep := b)
    {
      SpiWrite(a / 256);
      SpiWrite(a % 256);
      SpiWrite(b / 256);
      SpiWrite(b % 256);
    }

    /** A colour, high byte first. */
    method SendColor(hi: Byte, lo: Byte)
      requires chip.mode == Pixels && chip.args == []
      modifies this
      ensures chip == Store(old(chip), Join(hi, lo))
    {
      SpiWrite(hi);
      SpiWrite(lo);
    }

    method DrawPixel(x: int, y: int, color: Word)
      requires Valid()
      modifies this
      ensures Valid()
      ensures chip.frame == Paint(old(chip).frame, [Point(x, y)], color)
    {
      if x < 0 || x >= width || y < 0 || y >= height {
        PaintOne(chip.frame, Point(x, y), color);
        return;
      }
      PaintOne(chip.frame, Point(x, y), color);
      SetAddrWindow(x, y, x + 1, y + 1);
      SendColor(color / 256, color % 256);
    }

    method DrawFastVLine(x: int, y: int, h0: int, color: Word)
      requires Valid() && 0 <= x <= 32767 && 0 <= y <= 32767 && 0 <= h0 <= 32767
      modifies this
      ensures Valid()
      ensures chip.frame == if h0 == 0 then old(chip).frame
                            else Paint(old(chip).frame, LinePixels(Point(x, y), Point(x, y + h0 - 1)), color)
    {
      ghost var f := chip.frame;
      var h := h0;
      if x >= width || y >= height {
        VLineClipped(f, f, x, y, h0, 0, color);
        return;
      }
      if y + h - 1 >= height {
        h := height - y;
      }
      SetAddrWindow(x, y, x, (y + h - 1) % 65536);
      SendRows(1, h, color / 256, color % 256, color);
      VLineClipped(f, chip.frame, x, y, h0, h, color);
    }

    method DrawFastHLine(x: int, y: int, w0: int, color: Word)
      requires Valid() && 0 <= x <= 32767 && 0 <= y <= 32767 && 0 <= w0 <= 32767
      modifies this
      ensures Valid()
      ensures chip.frame == if w0 == 0 then old(chip).frame
                            else Paint(old(chip).frame, LinePixels(Point(x, y), Point(x + w0 - 1, y)), color)
    {
      ghost var f := chip.frame;
      var w := w0;
      if x >= width || y >= height {
        HLineClipped(f, f, x, y, w0, 0, color);
        return;
      }
      if x + w - 1 >= width {
        w := width - x;
      }
      SetAddrWindow(x, y, (x + w - 1) % 65536, y);
      if w > 0 {
        SendRow(f, w, 1, 0, color / 256, color % 256, color);
      }
      HLineClipped(f, chip.frame, x, y, w0, w, color);
    }

    /** The driver's rectangle fill leaves what the generic column by column loop leaves. */
    method FillRect(x: int, y: int, w0: int, h0: int, color: Word)
      requires Valid() && 0 <= x <= 32767 && 0 <= y <= 32767 && 0 <= w0 <= 32767 && 0 <= h0 <= 32767
      modifies this
      ensures Valid()
      ensures chip.frame == if h0 == 0 then old(chip).frame
                            else Paint(old(chip).frame, Columns(x, y, w0, h0), color)
    {
      ghost var f := chip.frame;
      var w, h := w0, h0;
      if x >= width || y >= height {
        RectClipped(f, f, x, y, w0, h0, 0, 0, color);
        return;
      }
      if x + w - 1 >= width {
        w := width - x;
      }
      if y + h - 1 >= height {
        h := height - y;
      }
      SetAddrWindow(x, y, (x + w - 1) % 65536, (y + h - 1) % 65536);
      SendRows(w, h, color / 256, color % 256, color);
      RectClipped(f, chip.frame, x, y, w0, h0, w, h, color);
    }

    /** The two loops of fillRect; with one column, the loop of drawFastVLine. */
    method SendRows(w: int, h: int, hi: Byte, lo: Byte, ghost color: Word)
      requires w >= 0 && h >= 0 && Join(hi, lo) == color
      requires w > 0 && h > 0 ==> Window(chip, w, h) && chip.col == chip.sc && chip.row == chip.sp
      modifies this
      ensures chip.frame.Keys == old(chip).frame.Keys
      ensures forall p <- chip.frame :: chip.frame[p] ==
                if old(chip).sc <= p.x < old(chip).sc + w && old(chip).sp <= p.y < old(chip).sp + h then color
                else old(chip).frame[p]
    {
      ghost var c := chip;
      var y := h;
      while y > 0
        invariant 0 <= y <= h
        invariant w > 0 && h > 0 ==> Sent(c.frame, chip, w, h, h - y, 0, color)
        invariant chip.sc == c.sc && chip.sp == c.sp
        invariant w == 0 || h == 0 ==> chip == c
      {
        if w > 0 {
          SendRow(c.frame, w, h, h - y, hi, lo, color);
        }
        y := y - 1;
      }
    }

    /** One row of colours. */
    method SendRow(ghost f: Frame, w: int, ghost h: int, ghost r: int, hi: Byte, lo: Byte, ghost color: Word)
      requires w > 0 && Sent(f, chip, w, h, r, 0, color) && r < h && Join(hi, lo) == color
      modifies this
      ensures Sent(f, chip, w, h, r + 1, 0, color)
      ensures chip.sc == old(chip).sc && chip.sp == old(chip).sp
    {
      var x := w;
      while x > 0
        invariant 0 <= x <= w && Sent(f, chip, w, h, r, w - x, color)
        invariant chip.sc == old(chip).sc && chip.sp == old(chip).sp
      {
        StoreStep(f, chip, w, h, r, w - x, color);
        SendColor(hi, lo);
        x := x - 1;
      }
      RowDone(f, chip, w, h, r, color);
    }
  }

  lemma PaintOne(f: Frame, p: Point, color: Word)
    ensures Paint(f, [p], color) == Plot(f, p, color)
  {
    assert [p][..0] == [];
  }

  /** Clipping the length first or each point later comes to the same. */
  lemma VLineClipped(f: Frame, g: Frame, x: int, y: int, h: int, n: int, color: Word)
    requires h >= 0 && g.Keys == f.Keys
    requires forall p <- f :: g[p] == if p.x == x && y <= p.y < y + n then color else f[p]
    requires forall p <- f :: p.x == x ==> (y <= p.y < y + n <==> y <= p.y < y + h)
    ensures g == if h == 0 then f else Paint(f, LinePixels(Point(x, y), Point(x, y + h - 1)), color)
  {
    if h > 0 {
      var s := LinePixels(Point(x, y), Point(x, y + h - 1));
      forall p | p in f ensures g[p] == if p in s then color else f[p] {
        VLineCovers(x, y, h, p);
      }
      PaintedIs(f, g, s, color);
    }
  }

  lemma HLineClipped(f: Frame, g: Frame, x: int, y: int, w: int, n: int, color: Word)
    requires w >= 0 && g.Keys == f.Keys
    requires forall p <- f :: g[p] == if p.y == y && x <= p.x < x + n then color else f[p]
    requires forall p <- f :: p.y == y ==> (x <= p.x < x + n <==> x <= p.x < x + w)
    ensures g == if w == 0 then f else Paint(f, LinePixels(Point(x, y), Point(x + w - 1, y)), color)
  {
    if w > 0 {
      var s := LinePixels(Point(x, y), Point(x + w - 1, y));
      forall p | p in f ensures g[p] == if p in s then color else f[p] {
        HLineCovers(x, y, w, p);
      }
      PaintedIs(f, g, s, color);
    }
  }

  lemma RectClipped(f: Frame, g: Frame, x: int, y: int, w: int, h: int, n: int, m: int, color: Word)
    requires w >= 0 && h >= 0 && g.Keys == f.Keys
    requires forall p <- f :: g[p] == if x <= p.x < x + n && y <= p.y < y + m then color else f[p]
    requires forall p <- f ::
               x <= p.x < x + n && y <= p.y < y + m <==> x <= p.x < x + w && y <= p.y < y + h
    ensures g == if h == 0 then f else Paint(f, Columns(x, y, w, h), color)
  {
    if h > 0 {
      var s := Columns(x, y, w, h);
      forall p | p in f ensures g[p] == if p in s then color else f[p] {
        ColumnsCover(x, y, w, h, p);
      }
      PaintedIs(f, g, s, color);
    }
  }

  // ---------- length zero, where fast and generic part ----------

  /** With length 0 the driver sends no colour. Whether the generic loops change nothing either. */
  ghost predicate Untouched(f: Frame, s: seq<Point>) {
    forall color :: Paint(f, s, color) == f
  }

  lemma UntouchedIff(f: Frame, s: seq<Point>)
    ensures Untouched(f, s) <==> forall p <- s :: p !in f
  {
    if p :| p in s && p in f {
      var color: Word := if f[p] == 0 then 1 else 0;
      PaintedAt(f, s, color, p);
      assert Paint(f, s, color) != f;
    } else {
      forall color: Word ensures Paint(f, s, color) == f {
        PaintedIs(f, f, s, color);
      }
    }
  }

  /** A generic line of length 0 runs backwards from its start to the pixel before it. */
  lemma VLineOfNone(x: int, y: int, p: Point)
    ensures p in LinePixels(Point(x, y), Point(x, y - 1)) <==> p.x == x && y - 1 <= p.y <= y
  {
    SameEitherWay(Point(x, y), Point(x, y - 1));
    VLineCovers(x, y - 1, 2, p);
  }

  lemma HLineOfNone(x: int, y: int, p: Point)
    ensures p in LinePixels(Point(x, y), Point(x - 1, y)) <==> p.y == y && x - 1 <= p.x <= x
  {
    SameEitherWay(Point(x, y), Point(x - 1, y));
    HLineCovers(x - 1, y, 2, p);
  }

  lemma {:induction false} ColumnsOfNone(x: int, y: int, w: nat, p: Point)
    ensures p in Columns(x, y, w, 0) <==> x <= p.x < x + w && y - 1 <= p.y <= y
  {
    if w > 0 {
      ColumnsOfNone(x, y, w - 1, p);
      VLineOfNone(x + w - 1, y, p);
      InColumns(x, y, w, 0, p);
    }
  }

  lemma VLineAgreesIff(f: Frame, width: nat, height: nat, x: nat, y: nat)
    requires width > 0 && height > 0 && Screen(f, width, height)
    ensures Untouched(f, LinePixels(Point(x, y), Point(x, y - 1))) <==> x >= width || y > height
  {
    var s := LinePixels(Point(x, y), Point(x, y - 1));
    UntouchedIff(f, s);
    forall p ensures p in s <==> p.x == x && y - 1 <= p.y <= y {
      VLineOfNone(x, y, p);
    }
    var q := Point(x, if y == height then y - 1 else y);
    assert q in s;
  }

  lemma HLineAgreesIff(f: Frame, width: nat, height: nat, x: nat, y: nat)
    requires width > 0 && height > 0 && Screen(f, width, height)
    ensures Untouched(f, LinePixels(Point(x, y), Point(x - 1, y))) <==> x > width || y >= height
  {
    var s := LinePixels(Point(x, y), Point(x - 1, y));
    UntouchedIff(f, s);
    forall p ensures p in s <==> p.y == y && x - 1 <= p.x <= x {
      HLineOfNone(x, y, p);
    }
    var q := Point(if x == width then x - 1 else x, y);
    assert q in s;
  }

  lemma RectAgreesIff(f: Frame, width: nat, height: nat, x: nat, y: nat, w: nat)
    requires width > 0 && height > 0 && Screen(f, width, height)
    ensures Untouched(f, Columns(x, y, w, 0)) <==> w == 0 || x >= width || y > height
  {
    var s := Columns(x, y, w, 0);
    UntouchedIff(f, s);
    forall p ensures p in s <==> x <= p.x < x + w && y - 1 <= p.y <= y {
      ColumnsOfNone(x, y, w, p);
    }
    var q := Point(x, if y == height then y - 1 else y);
    assert w > 0 ==> q in s;
  }
}
