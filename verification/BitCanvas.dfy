/** The one-bit off-screen canvas of Adafruit_GFX.cpp: GFXcanvas1::drawPixel in all rotations,
    fillScreen, and the two-colour drawBitmap. */
module BitCanvas {
  import opened Arithmetic

  // ---------- bits ----------

  /** The source's mask tables, indexed by x & 7. */
  const SET_BIT: seq<bv8> := [0x80, 0x40, 0x20, 0x10, 0x08, 0x04, 0x02, 0x01]
  const CLR_BIT: seq<bv8> := [0x7F, 0xBF, 0xDF, 0xEF, 0xF7, 0xFB, 0xFD, 0xFE]

  /** Pixel `k` of a byte, counted from the most significant bit. Bit and Masked are chosen by their
      defining properties, so that bit vectors appear only in the proofs about single bytes. */
  predicate IsBit(b: bv8, k: nat, on: bool)
    requires k < 8
  {
    on == (b & SET_BIT[k] != 0)
  }

  ghost function Bit(b: bv8, k: nat): bool
    requires k < 8
  {
    assert IsBit(b, k, b & SET_BIT[k] != 0);
    var on :| IsBit(b, k, on);
    on
  }

  lemma BitIs(b: bv8, k: nat)
    requires k < 8
    ensures Bit(b, k) == (b & SET_BIT[k] != 0)
  {
    assert IsBit(b, k, b & SET_BIT[k] != 0);
  }

  /** The byte with pixel `k` set or cleared by the mask tables. */
  predicate IsMasked(b: bv8, k: nat, on: bool, r: bv8)
    requires k < 8
  {
    r == if on then b | SET_BIT[k] else b & CLR_BIT[k]
  }

  ghost function Masked(b: bv8, k: nat, on: bool): bv8
    requires k < 8
  {
    HasMasked(b, k, on);
    var r :| IsMasked(b, k, on, r);
    r
  }

  lemma HasMasked(b: bv8, k: nat, on: bool)
    requires k < 8
    ensures exists r :: IsMasked(b, k, on, r)
  {
    assert IsMasked(b, k, on, if on then b | SET_BIT[k] else b & CLR_BIT[k]);
  }

  lemma MaskedIs(b: bv8, k: nat, on: bool)
    requires k < 8
    ensures Masked(b, k, on) == if on then b | SET_BIT[k] else b & CLR_BIT[k]
  {
    HasMasked(b, k, on);
  }

  /** Setting or clearing one pixel of a byte leaves the other seven alone. */
  lemma OneBitChanges(b: bv8, k: nat, on: bool, j: nat)
    requires k < 8 && j < 8
    ensures Bit(Masked(b, k, on), j) == if j == k then on else Bit(b, j)
  {
    var r := Masked(b, k, on);
    MaskedIs(b, k, on);
    BitIs(b, j);
    BitIs(r, j);
    ThroughMasks(b, k, on, j, r);
  }

  lemma ThroughMasks(b: bv8, k: nat, on: bool, j: nat, r: bv8)
    requires k < 8 && j < 8 && r == if on then b | SET_BIT[k] else b & CLR_BIT[k]
    ensures (r & SET_BIT[j] != 0) == if j == k then on else b & SET_BIT[j] != 0
  {
    Complement(k);
    if j != k {
      MasksDisjoint(k, j);
    }
    MaskEffect(b, SET_BIT[k], CLR_BIT[k], SET_BIT[j], on, r);
  }

  lemma Complement(k: nat)
    requires k < 8
    ensures CLR_BIT[k] == !SET_BIT[k] && SET_BIT[k] != 0
  {
  }

  lemma MasksDisjoint(k: nat, j: nat)
    requires k < 8 && j < 8 && j != k
    ensures SET_BIT[k] & SET_BIT[j] == 0 && SET_BIT[k] != SET_BIT[j]
  {
  }

  lemma MaskEffect(b: bv8, s: bv8, c: bv8, m: bv8, on: bool, r: bv8)
    requires c == !s && s != 0 && (s == m || s & m == 0) && r == if on then b | s else b & c
    ensures (r & m != 0) == if s == m then on else b & m != 0
  {
  }

  /** A byte shifted left `k` times, one position at a time. */
  function Shifted(b: bv8, k: nat): bv8 {
    if k == 0 then b else Shifted(b, k - 1) << 1
  }

  /** After `k` shifts the top bit is pixel `k`. */
  lemma TopBit(b: bv8, k: nat)
    requires k < 8
    ensures (Shifted(b, k) & 0x80 != 0) == Bit(b, k)
  {
    BitIs(b, k);
    ShiftedIs(b, k);
    TopOf(b, k);
  }

  function ShiftedOnce(b: bv8): seq<bv8> {
    [b, b << 1, b << 2, b << 3, b << 4, b << 5, b << 6, b << 7]
  }

  /** One position at a time comes to the same as all at once. */
  lemma {:induction false} ShiftedIs(b: bv8, k: nat)
    requires k < 8
    ensures Shifted(b, k) == ShiftedOnce(b)[k]
  {
    if k > 0 {
      ShiftedIs(b, k - 1);
    }
  }

  lemma TopOf(b: bv8, k: nat)
    requires k < 8
    ensures (ShiftedOnce(b)[k] & 0x80 != 0) == (b & SET_BIT[k] != 0)
  {
  }

  // ---------- geometry ----------

  datatype Rotation = R0 | R1 | R2 | R3

  datatype Point = Point(x: int, y: int)

  /** The canvas as it was made: its unrotated size. */
  datatype Size = Size(width: nat, height: nat) {
    function Stride(): nat {
      (width + 7) / 8
    }

    function Bytes(): nat {
      Stride() * height
    }

    /** Size as seen under a rotation. */
    function Wide(r: Rotation): nat {
      if r.R1? || r.R3? then height else width
    }

    function High(r: Rotation): nat {
      if r.R1? || r.R3? then width else height
    }

    predicate OnScreen(r: Rotation, p: Point) {
      0 <= p.x < Wide(r) && 0 <= p.y < High(r)
    }

    /** The unrotated position of a point on the screen. */
    function Unrotate(r: Rotation, p: Point): Point {
      match r
      case R0 => p
      case R1 => Point(width - 1 - p.y, p.x)
      case R2 => Point(width - 1 - p.x, height - 1 - p.y)
      case R3 => Point(p.y, height - 1 - p.x)
    }

    /** Where the pixel of an unrotated point is stored. */
    function Cell(q: Point): (nat, nat)
      requires OnScreen(R0, q)
    {
      (q.x / 8 + q.y * Stride(), q.x % 8)
    }
  }

  lemma CellInBuffer(s: Size, q: Point)
    requires s.OnScreen(R0, q)
    ensures s.Cell(q).0 < s.Bytes() && s.Cell(q).1 < 8
  {
    Rows(s.Stride(), q.y, s.height);
    assert q.x / 8 < s.Stride();
  }

  lemma Rows(stride: nat, y: nat, h: nat)
    requires y < h
    ensures y * stride + stride <= stride * h
  {
    assert stride * h == y * stride + (h - y) * stride;
    AtLeast(h - y, stride);
  }

  /** Different points are stored in different bits. */
  lemma CellsDiffer(s: Size, p: Point, q: Point)
    requires s.OnScreen(R0, p) && s.OnScreen(R0, q) && s.Cell(p) == s.Cell(q)
    ensures p == q
  {
    ByteColumn(p.x, s.width);
    ByteColumn(q.x, s.width);
    SameRow(s.Stride(), p.x / 8, p.y, q.x / 8, q.y);
    SameColumn(p.x, q.x, p.x / 8, p.x % 8);
  }

  lemma ByteColumn(x: nat, width: nat)
    requires x < width
    ensures x / 8 < (width + 7) / 8
  {
  }

  lemma SameRow(stride: nat, a: nat, y: nat, b: nat, z: nat)
    requires a < stride && b < stride && a + y * stride == b + z * stride
    ensures y == z && a == b
  {
    if y < z {
      Rows(stride, y, z);
    } else if z < y {
      Rows(stride, z, y);
    }
  }

  lemma SameColumn(x: nat, u: nat, byte: nat, bit: nat)
    requires x / 8 == u / 8 == byte && x % 8 == u % 8 == bit
    ensures x == u
  {
  }

  /** In every rotation the screen is mapped into the buffer, and no two of its points share a bit. */
  lemma RotationInjective(s: Size, r: Rotation, p: Point, q: Point)
    requires s.OnScreen(r, p) && s.OnScreen(r, q)
    ensures s.OnScreen(R0, s.Unrotate(r, p)) && s.OnScreen(R0, s.Unrotate(r, q))
    ensures s.Cell(s.Unrotate(r, p)).0 < s.Bytes()
    ensures s.Cell(s.Unrotate(r, p)) == s.Cell(s.Unrotate(r, q)) <==> p == q
  {
    CellInBuffer(s, s.Unrotate(r, p));
    if s.Cell(s.Unrotate(r, p)) == s.Cell(s.Unrotate(r, q)) {
      CellsDiffer(s, s.Unrotate(r, p), s.Unrotate(r, q));
    }
  }

  // ---------- pictures in buffers ----------

  /** Whether a point of the rotated screen is set in the buffer. */
  ghost predicate Lit(s: Size, buf: seq<bv8>, r: Rotation, p: Point)
    requires |buf| == s.Bytes() && s.OnScreen(r, p)
  {
    RotationInjective(s, r, p, p);
    var (i, k) := s.Cell(s.Unrotate(r, p));
    Bit(buf[i], k)
  }

  /** The buffer with one point of the screen set or cleared. */
  ghost function Plot(s: Size, buf: seq<bv8>, r: Rotation, p: Point, on: bool): (b: seq<bv8>)
    requires |buf| == s.Bytes() && s.OnScreen(r, p)
    ensures |b| == |buf|
  {
    RotationInjective(s, r, p, p);
    var (i, k) := s.Cell(s.Unrotate(r, p));
    buf[i := Masked(buf[i], k, on)]
  }

  function NextRotation(r: Rotation): Rotation {
    match r
    case R0 => R1
    case R1 => R2
    case R2 => R3
    case R3 => R0
  }

  /** Rotation 0 is the canvas as made, and each further rotation is the same quarter turn: its top
      left corner is the top right one of the rotation before, and its rows run down from there. */
  lemma QuarterTurn(s: Size, buf: seq<bv8>, r: Rotation, p: Point)
    requires |buf| == s.Bytes() && s.OnScreen(NextRotation(r), p)
    ensures s.Unrotate(R0, p) == p
    ensures var q := Point(s.Wide(r) - 1 - p.y, p.x);
            s.OnScreen(r, q) && Lit(s, buf, NextRotation(r), p) == Lit(s, buf, r, q)
  {
    var q := Point(s.Wide(r) - 1 - p.y, p.x);
    assert s.Unrotate(NextRotation(r), p) == s.Unrotate(r, q);
  }

  /** Plotting changes exactly that one point of the picture. */
  lemma PlotChangesOnePixel(s: Size, buf: seq<bv8>, r: Rotation, p: Point, on: bool, q: Point)
    requires |buf| == s.Bytes() && s.OnScreen(r, p) && s.OnScreen(r, q)
    ensures Lit(s, Plot(s, buf, r, p, on), r, q) == if q == p then on else Lit(s, buf, r, q)
  {
    RotationInjective(s, r, p, q);
    RotationInjective(s, r, q, p);
    var (i, k) := s.Cell(s.Unrotate(r, p));
    var (j, m) := s.Cell(s.Unrotate(r, q));
    if i == j {
      OneBitChanges(buf[i], k, on, m);
    }
  }

  // ---------- bitmaps ----------

  /** A two-colour bitmap to be drawn at (x, y): rows of whole bytes, `w` by `h` pixels. */
  datatype Bitmap = Bitmap(x: int, y: int, bytes: seq<bv8>, w: nat, h: nat, color: nat, bg: nat) {
    function Stride(): nat {
      (w + 7) / 8
    }

    predicate Complete() {
      |bytes| >= Stride() * h
    }
  }

  lemma InBytes(m: Bitmap, i: nat, j: nat)
    requires m.Complete() && i < m.w && j < m.h
    ensures j * m.Stride() + i / 8 < |m.bytes|
  {
    Rows(m.Stride(), j, m.h);
  }

  /** Whether pixel (i, j) of the bitmap comes out lit. */
  ghost predicate Ink(m: Bitmap, i: nat, j: nat)
    requires m.Complete() && i < m.w && j < m.h
  {
    InBytes(m, i, j);
    (if Bit(m.bytes[j * m.Stride() + i / 8], i % 8) then m.color else m.bg) != 0
  }

  /** Pixel `q` after the rows before `j`, and of row `j` the columns before `i`, are drawn over
      the picture in `was`. */
  ghost predicate Blitted(s: Size, r: Rotation, m: Bitmap, was: seq<bv8>, j: nat, i: nat, q: Point)
    requires m.Complete() && |was| == s.Bytes() && s.OnScreen(r, q)
  {
    var u, v := q.x - m.x, q.y - m.y;
    if 0 <= u < m.w && 0 <= v < m.h && (v < j || (v == j && u < i)) then Ink(m, u, v)
    else Lit(s, was, r, q)
  }

  ghost predicate Shows(s: Size, r: Rotation, m: Bitmap, was: seq<bv8>, j: nat, i: nat, buf: seq<bv8>)
    requires m.Complete() && |was| == |buf| == s.Bytes()
  {
    forall q :: s.OnScreen(r, q) ==> Lit(s, buf, r, q) == Blitted(s, r, m, was, j, i, q)
  }

  lemma BlitOne(s: Size, r: Rotation, m: Bitmap, was: seq<bv8>, j: nat, i: nat, buf: seq<bv8>, after: seq<bv8>)
    requires m.Complete() && |was| == |buf| == |after| == s.Bytes() && i < m.w && j < m.h
    requires Shows(s, r, m, was, j, i, buf)
    requires var p := Point(m.x + i, m.y + j);
             after == if s.OnScreen(r, p) then Plot(s, buf, r, p, Ink(m, i, j)) else buf
    ensures Shows(s, r, m, was, j, i + 1, after)
  {
    forall q | s.OnScreen(r, q) ensures Lit(s, after, r, q) == Blitted(s, r, m, was, j, i + 1, q) {
      BlitAt(s, r, m, was, j, i, buf, after, q);
    }
  }

  lemma BlitAt(s: Size, r: Rotation, m: Bitmap, was: seq<bv8>, j: nat, i: nat, buf: seq<bv8>, after: seq<bv8>, q: Point)
    requires m.Complete() && |was| == |buf| == |after| == s.Bytes() && i < m.w && j < m.h && s.OnScreen(r, q)
    requires Lit(s, buf, r, q) == Blitted(s, r, m, was, j, i, q)
    requires var p := Point(m.x + i, m.y + j);
             after == if s.OnScreen(r, p) then Plot(s, buf, r, p, Ink(m, i, j)) else buf
    ensures Lit(s, after, r, q) == Blitted(s, r, m, was, j, i + 1, q)
  {
    var p := Point(m.x + i, m.y + j);
    if s.OnScreen(r, p) {
      PlotChangesOnePixel(s, buf, r, p, Ink(m, i, j), q);
    }
  }

  lemma RowDone(s: Size, r: Rotation, m: Bitmap, was: seq<bv8>, j: nat, buf: seq<bv8>)
    requires m.Complete() && |was| == |buf| == s.Bytes() && Shows(s, r, m, was, j, m.w, buf)
    ensures Shows(s, r, m, was, j + 1, 0, buf)
  {
    forall q | s.OnScreen(r, q) ensures Lit(s, buf, r, q) == Blitted(s, r, m, was, j + 1, 0, q) {
      assert Lit(s, buf, r, q) == Blitted(s, r, m, was, j, m.w, q);
    }
  }

  // ---------- the canvas ----------

  /** The shifting byte holds the buffer byte of pixel (i, j), moved left i mod 8 places. */
  ghost predicate HoldsByte(m: Bitmap, j: nat, i: nat, byte: bv8) {
    var at := j * m.Stride() + i / 8;
    at < |m.bytes| && byte == Shifted(m.bytes[at], i % 8)
  }

  class GFXcanvas1 {
    const size: Size
    const buffer: array<bv8>
    var rotation: Rotation
    var wide: nat
    var high: nat

    constructor (w: nat, h: nat)
      requires Size(w, h).Bytes() <= 65535
      ensures size == Size(w, h) && Valid() && rotation == R0 && fresh(buffer)
      ensures forall k :: 0 <= k < buffer.Length ==> buffer[k] == 0
    {
      size := Size(w, h);
      buffer := new bv8[((w + 7) / 8) * h](k => 0);
      rotation, wide, high := R0, w, h;
    }

    ghost predicate Valid()
      reads this
    {
      buffer.Length == size.Bytes() && wide == size.Wide(rotation) && high == size.High(rotation)
    }

    ghost function Pixel(p: Point): bool
      reads this, buffer
      requires Valid() && size.OnScreen(rotation, p)
    {
      Lit(size, buffer[..], rotation, p)
    }

    method SetRotation(x: nat)
      requires Valid()
      modifies this`rotation, this`wide, this`high
      ensures Valid() && rotation == [R0, R1, R2, R3][x % 4]
    {
      rotation := [R0, R1, R2, R3][x % 4];
      match rotation {
        case R0 => wide, high := size.width, size.height;
        case R2 => wide, high := size.width, size.height;
        case R1 => wide, high := size.height, size.width;
        case R3 => wide, high := size.height, size.width;
      }
    }

    /** Points off the screen are ignored; on it exactly one bit of the buffer changes. */
    method DrawPixel(x0: int, y0: int, color: nat)
      requires Valid()
      modifies buffer
      ensures Valid()
      ensures buffer[..] == if size.OnScreen(rotation, Point(x0, y0))
                            then Plot(size, old(buffer[..]), rotation, Point(x0, y0), color != 0)
                            else old(buffer[..])
    {
      if x0 < 0 || y0 < 0 || x0 >= wide || y0 >= high {
        return;
      }
      RotationInjective(size, rotation, Point(x0, y0), Point(x0, y0));
      var x, y := x0, y0;
      match rotation {
        case R0 =>
        case R1 =>
          var t := x;
          x := size.width - 1 - y;
          y := t;
        case R2 =>
          x := size.width - 1 - x;
          y := size.height - 1 - y;
        case R3 =>
          var t := x;
          x := y;
          y := size.height - 1 - t;
      }
      var i := x / 8 + y * ((size.width + 7) / 8);
      SetBit(i, x % 8, color);
    }

    method SetBit(i: nat, k: nat, color: nat)
      requires i < buffer.Length && k < 8
      modifies buffer
      ensures buffer[..] == old(buffer[..])[i := Masked(old(buffer[i]), k, color != 0)]
    {
      MaskedIs(buffer[i], k, color != 0);
      if color != 0 {
        buffer[i] := buffer[i] | SET_BIT[k];
      } else {
        buffer[i] := buffer[i] & CLR_BIT[k];
      }
    }

    /** Two-colour drawBitmap: inside the rectangle every pixel on the screen takes the colour of
        its bitmap bit, everything else stays, in any rotation. */
    method DrawBitmap(m: Bitmap)
      requires Valid() && m.Complete()
      modifies buffer
      ensures Valid() && Shows(size, rotation, m, old(buffer[..]), m.h, 0, buffer[..])
    {
      ghost var was := buffer[..];
      var j := 0;
      while j < m.h
        invariant Valid() && 0 <= j <= m.h
        invariant Shows(size, rotation, m, was, j, 0, buffer[..])
      {
        DrawBitmapRow(m, j, was);
        RowDone(size, rotation, m, was, j, buffer[..]);
        j := j + 1;
      }
    }

    method DrawBitmapRow(m: Bitmap, j: nat, ghost was: seq<bv8>)
      requires Valid() && m.Complete() && |was| == size.Bytes() && j < m.h
      requires Shows(size, rotation, m, was, j, 0, buffer[..])
      modifies buffer
      ensures Valid() && Shows(size, rotation, m, was, j, m.w, buffer[..])
    {
      var byte: bv8 := 0;
      var i := 0;
      while i < m.w
        invariant Valid() && 0 <= i <= m.w
        invariant i % 8 != 0 ==> HoldsByte(m, j, i - 1, byte)
        invariant Shows(size, rotation, m, was, j, i, buffer[..])
      {
        var lit;
        byte, lit := NextByte(m, j, i, byte);
        DrawInk(m, j, i, lit, was);
        i := i + 1;
      }
    }

    /** One pixel of the bitmap, in the one colour or the other. */
    method DrawInk(m: Bitmap, j: nat, i: nat, lit: bool, ghost was: seq<bv8>)
      requires Valid() && m.Complete() && |was| == size.Bytes() && j < m.h && i < m.w
      requires Ink(m, i, j) == ((if lit then m.color else m.bg) != 0)
      requires Shows(size, rotation, m, was, j, i, buffer[..])
      modifies buffer
      ensures Valid() && Shows(size, rotation, m, was, j, i + 1, buffer[..])
    {
      ghost var before := buffer[..];
      DrawPixel(m.x + i, m.y + j, if lit then m.color else m.bg);
      BlitOne(size, rotation, m, was, j, i, before, buffer[..]);
    }

    /** The byte is fetched every eighth pixel and shifted in between; its top bit is the pixel. */
    method NextByte(m: Bitmap, j: nat, i: nat, byte0: bv8) returns (byte: bv8, lit: bool)
      requires m.Complete() && j < m.h && i < m.w && (i % 8 != 0 ==> HoldsByte(m, j, i - 1, byte0))
      ensures HoldsByte(m, j, i, byte)
      ensures Ink(m, i, j) == ((if lit then m.color else m.bg) != 0)
    {
      InBytes(m, i, j);
      byte := byte0;
      if i % 8 != 0 {
        byte := byte << 1;
      } else {
        byte := m.bytes[j * ((m.w + 7) / 8) + i / 8];
      }
      TopBit(m.bytes[j * m.Stride() + i / 8], i % 8);
      lit := byte & 0x80 != 0;
    }

    /** memset over the whole buffer. */
    method FillScreen(color: nat)
      requires Valid()
      modifies buffer
      ensures Valid() && forall q :: size.OnScreen(rotation, q) ==> Pixel(q) == (color != 0)
    {
      var fill: bv8 := if color != 0 then 0xFF else 0x00;
      var k := 0;
      while k < buffer.Length
        invariant 0 <= k <= buffer.Length
        invariant forall m :: 0 <= m < k ==> buffer[m] == fill
      {
        buffer[k] := fill;
        k := k + 1;
      }
      forall q | size.OnScreen(rotation, q) ensures Pixel(q) == (color != 0) {
        RotationInjective(size, rotation, q, q);
        AllOrNothing(size.Cell(size.Unrotate(rotation, q)).1);
      }
    }
  }

  lemma AllOrNothing(k: nat)
    requires k < 8
    ensures Bit(0xFF, k) && !Bit(0x00, k)
  {
    BitIs(0xFF, k);
    BitIs(0x00, k);
  }

  /** Blitting one canvas's buffer onto another of the same size at rotation 0 reproduces its
      picture pixel for pixel. */
  method CopyPicture(src: GFXcanvas1, dst: GFXcanvas1)
    requires src.Valid() && dst.Valid() && src.size == dst.size && src.rotation == dst.rotation == R0
    requires src.buffer != dst.buffer
    modifies dst.buffer
    ensures dst.Valid() && forall q :: dst.size.OnScreen(R0, q) ==> dst.Pixel(q) == src.Pixel(q)
  {
    var m := Bitmap(0, 0, src.buffer[..], src.size.width, src.size.height, 1, 0);
    ghost var was := dst.buffer[..];
    dst.DrawBitmap(m);
    forall q | dst.size.OnScreen(R0, q) ensures dst.Pixel(q) == src.Pixel(q) {
      assert Lit(dst.size, dst.buffer[..], R0, q) == Blitted(dst.size, R0, m, was, m.h, 0, q);
      InBytes(m, q.x, q.y);
    }
  }
}
