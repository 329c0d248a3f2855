/** The framebuffer of render_engine.h (framebuffer_t): a row-major grid of colour
    indices, `width` pixels wide and `height` pixels high, and the three operations
    of render_engine.c that write it: the clear loop of Render_Engine_RenderFrame,
    paintPixel and paintPixelf. The pure functions below give the buffer contents
    after each operation; the class methods are proved to produce exactly them. */
module Framebuffers {
  import opened Types

  /** Index of pixel (x, y) in a row-major buffer `w` pixels wide. */
  function PixelIndex(w: nat, x: nat, y: nat): nat {
    x + y * w
  }

  predicate InFrame(w: nat, h: nat, x: int, y: int) {
    0 <= x < w && 0 <= y < h
  }

  lemma IndexInBuffer(w: nat, h: nat, x: nat, y: nat)
    requires InFrame(w, h, x, y)
    ensures PixelIndex(w, x, y) < w * h
  {
    calc {
      x + y * w;
    <
      w + y * w;
    ==
      (y + 1) * w;
    <=  { MulLeftMono(y + 1, h, w); }
      h * w;
    }
  }

  lemma MulLeftMono(a: nat, b: nat, c: nat)
    requires a <= b
    ensures a * c <= b * c
  {
  }

  /** Two pixels of one frame never share a buffer cell: the row-major layout has no aliasing. */
  lemma {:induction false} IndexInjective(w: nat, x1: nat, y1: nat, x2: nat, y2: nat)
    requires x1 < w && x2 < w
    requires PixelIndex(w, x1, y1) == PixelIndex(w, x2, y2)
    ensures x1 == x2 && y1 == y2
  {
    if y1 < y2 {
      MulLeftMono(y1 + 1, y2, w);
      assert false;
    } else if y2 < y1 {
      MulLeftMono(y2 + 1, y1, w);
      assert false;
    }
  }

  /** Every cell of the buffer is the cell of exactly one in-frame pixel. */
  lemma {:induction false} CellIsPixel(w: nat, h: nat, i: nat)
    requires i < w * h
    ensures w > 0 && InFrame(w, h, i % w, i / w) && PixelIndex(w, i % w, i / w) == i
  {
    assert w > 0;
    var y := i / w;
    assert i == i % w + y * w;
    if y >= h {
      MulLeftMono(h, y, w);
      assert false;
    }
  }

  /** The colour of in-frame pixel (px, py). */
  function PixelAt(s: seq<Byte>, w: nat, h: nat, px: nat, py: nat): Byte
    requires |s| == w * h && InFrame(w, h, px, py)
  {
    IndexInBuffer(w, h, px, py);
    s[PixelIndex(w, px, py)]
  }

  /** Contents after paintPixel(frame, x, y, color). */
  function Painted(s: seq<Byte>, w: nat, h: nat, x: nat, y: nat, c: Byte): (r: seq<Byte>)
    requires |s| == w * h
    ensures |r| == |s|
  {
    if x < w && y < h then
      IndexInBuffer(w, h, x, y);
      s[PixelIndex(w, x, y) := c]
    else
      s
  }

  /** paintPixel writes `c` at pixel (x, y) exactly when (x, y) is inside the frame,
      and leaves every other pixel as it was. */
  lemma PaintedPixel(s: seq<Byte>, w: nat, h: nat, x: nat, y: nat, c: Byte, px: nat, py: nat)
    requires |s| == w * h && InFrame(w, h, px, py)
    ensures PixelAt(Painted(s, w, h, x, y, c), w, h, px, py) ==
      if x == px && y == py then c else PixelAt(s, w, h, px, py)
  {
    IndexInBuffer(w, h, px, py);
    if x < w && y < h && PixelIndex(w, x, y) == PixelIndex(w, px, py) {
      IndexInjective(w, x, y, px, py);
    }
  }

  /** The float-to-uint16_t casts in paintPixelf are defined only below 65536. */
  predicate CastSafe(p: Point2) {
    p.x >= 0.0 && p.y >= 0.0 ==> p.x < 65536.0 && p.y < 65536.0
  }

  /** Contents after paintPixelf(frame, p.x, p.y, color): negative coordinates are
      dropped, the others truncated toward zero (Floor, on non-negative values). */
  function PaintedF(s: seq<Byte>, w: nat, h: nat, p: Point2, c: Byte): (r: seq<Byte>)
    requires |s| == w * h
    ensures |r| == |s|
  {
    if p.x >= 0.0 && p.y >= 0.0 then Painted(s, w, h, p.x.Floor, p.y.Floor, c) else s
  }

  /** The pixel that a fractional point lands on, if any. */
  predicate Lands(p: Point2, px: nat, py: nat) {
    p.x >= 0.0 && p.y >= 0.0 && p.x.Floor == px && p.y.Floor == py
  }

  /** paintPixelf writes `c` at pixel (px, py) when the point lands on it; otherwise
      the pixel keeps its value. */
  lemma PaintedFPixel(s: seq<Byte>, w: nat, h: nat, p: Point2, c: Byte, px: nat, py: nat)
    requires |s| == w * h && InFrame(w, h, px, py)
    ensures PixelAt(PaintedF(s, w, h, p, c), w, h, px, py) ==
      if Lands(p, px, py) then c else PixelAt(s, w, h, px, py)
  {
    IndexInBuffer(w, h, px, py);
    if p.x >= 0.0 && p.y >= 0.0 {
      PaintedPixel(s, w, h, p.x.Floor, p.y.Floor, c, px, py);
    }
  }

  /** Contents after painting every point of `pts`, in order, in colour `c`. */
  function PaintSeq(s: seq<Byte>, w: nat, h: nat, pts: seq<Point2>, c: Byte): (r: seq<Byte>)
    requires |s| == w * h
    ensures |r| == |s|
    decreases |pts|
  {
    if pts == [] then s else PaintSeq(PaintedF(s, w, h, pts[0], c), w, h, pts[1..], c)
  }

  predicate Covers(pts: seq<Point2>, px: nat, py: nat) {
    exists k :: 0 <= k < |pts| && Lands(pts[k], px, py)
  }

  /** A run of paints in one colour writes `c` at every pixel some point lands on;
      every other pixel keeps its value. */
  lemma {:induction false} PaintSeqPixel(s: seq<Byte>, w: nat, h: nat, pts: seq<Point2>, c: Byte, px: nat, py: nat)
    requires |s| == w * h && InFrame(w, h, px, py)
    ensures PixelAt(PaintSeq(s, w, h, pts, c), w, h, px, py) ==
      if Covers(pts, px, py) then c else PixelAt(s, w, h, px, py)
    decreases |pts|
  {
    IndexInBuffer(w, h, px, py);
    if pts != [] {
      var s' := PaintedF(s, w, h, pts[0], c);
      PaintedFPixel(s, w, h, pts[0], c, px, py);
      PaintSeqPixel(s', w, h, pts[1..], c, px, py);
      if Covers(pts[1..], px, py) {
        var k :| 0 <= k < |pts[1..]| && Lands(pts[1..][k], px, py);
        assert Lands(pts[k + 1], px, py);
      }
      if Covers(pts, px, py) && !Lands(pts[0], px, py) {
        var k :| 0 <= k < |pts| && Lands(pts[k], px, py);
        assert pts[1..][k - 1] == pts[k];
      }
    }
  }

  /** Contents after setting the first `n` cells to `c` (the clear loop). */
  function Cleared(s: seq<Byte>, c: Byte, n: nat): (r: seq<Byte>)
    ensures |r| == |s|
  {
    seq(|s|, i requires 0 <= i < |s| => if i < n then c else s[i])
  }

  /** With width*height below 65536 (the uint16_t bufLength of the clear loop does
      not wrap), clearing sets every cell of the frame to the background colour,
      whatever the buffer held before. */
  lemma ClearFillsFrame(s: seq<Byte>, t: seq<Byte>, w: nat, h: nat, c: Byte)
    requires |s| == |t| == w * h < 0x1_0000
    ensures Cleared(s, c, (w * h) % 0x1_0000) == Cleared(t, c, (w * h) % 0x1_0000)
    ensures forall i :: 0 <= i < |s| ==> Cleared(s, c, (w * h) % 0x1_0000)[i] == c
  {
  }

  /** framebuffer_t. Its dimensions and its buffer pointer never change; only the
      buffer's cells are written. */
  class Framebuffer {
    const width: U16
    const height: U16
    const buffer: array<Byte>

    ghost predicate Valid() {
      buffer.Length == width * height
    }

    constructor (w: U16, h: U16)
      ensures Valid() && width == w && height == h && fresh(buffer)
    {
      width, height := w, h;
      buffer := new Byte[w * h];
    }

    /** The clear loop of Render_Engine_RenderFrame: `bufLength` is a uint16_t, so
        only the first (width*height) mod 65536 cells are set. */
    method Clear(color: Byte)
      requires Valid()
      modifies buffer
      ensures buffer[..] == Cleared(old(buffer[..]), color, (width * height) % 0x1_0000)
    {
      var bufLength: U16 := (width * height) % 0x1_0000;
      var i: U16 := 0;
      while i < bufLength
        invariant i <= bufLength <= buffer.Length
        invariant forall k :: 0 <= k < i ==> buffer[k] == color
        invariant forall k :: i <= k < buffer.Length ==> buffer[k] == old(buffer[k])
      {
        buffer[i] := color;
        i := i + 1;
      }
    }

    /** paintPixel. */
    method PaintPixel(x: U16, y: U16, color: Byte)
      requires Valid()
      modifies buffer
      ensures buffer[..] == Painted(old(buffer[..]), width, height, x, y, color)
    {
      if x < width && y < height {
        IndexInBuffer(width, height, x, y);
        buffer[x + y * width] := color;
      }
    }

    /** paintPixelf. */
    method PaintPixelf(x: real, y: real, color: Byte)
      requires Valid() && CastSafe(Point2(x, y))
      modifies buffer
      ensures buffer[..] == PaintedF(old(buffer[..]), width, height, Point2(x, y), color)
    {
      if x >= 0.0 && y >= 0.0 {
        PaintPixel(x.Floor, y.Floor, color);
      }
    }
  }
}
