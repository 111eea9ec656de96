/** Integer geometry of the plate detector: Java's 32-bit `int` arithmetic,
    the axis-aligned rectangles OpenCV's boundingRect yields, contours reduced
    to their bounding rectangle and area, and the four-corner polygons that
    the detector emits as plate candidates. */
module Geometry {

  const MinInt32: int := -0x8000_0000
  const MaxInt32: int := 0x7fff_ffff

  predicate InInt32(v: int) {
    MinInt32 <= v <= MaxInt32
  }

  /** A Java `int`. */
  type Int32 = v: int | InInt32(v)

  /** The value a Java `int` expression holds when its exact value is `v`:
      `v` reduced modulo 2^32 into the signed range (two's complement). */
  function Wrap32(v: int): (r: Int32)
    ensures InInt32(v) ==> r == v
  {
    (v + 0x8000_0000) % 0x1_0000_0000 - 0x8000_0000
  }

  /** `Wrap32` subtracts a multiple of 2^32 from its argument. */
  lemma WrapOffset(v: int)
    ensures Wrap32(v) == v - (v + 0x8000_0000) / 0x1_0000_0000 * 0x1_0000_0000
  {
  }

  /** Adding a multiple of 2^32 does not change the wrapped value. */
  lemma WrapShift(v: int, q: int)
    ensures Wrap32(v + q * 0x1_0000_0000) == Wrap32(v)
  {
    var u := v + 0x8000_0000;
    var p, r := u / 0x1_0000_0000, u % 0x1_0000_0000;
    assert u + q * 0x1_0000_0000 == (p + q) * 0x1_0000_0000 + r;
    var d := (u + q * 0x1_0000_0000) / 0x1_0000_0000;
    var r' := (u + q * 0x1_0000_0000) % 0x1_0000_0000;
    assert (d - p - q) * 0x1_0000_0000 == r - r';
  }

  /** Wrapping an intermediate result does not change the final wrapped
      value: Java's `x - (y + z)` is `Wrap32(x - Wrap32(y + z))`, which is the
      wrapped exact difference; likewise for `(y + z) - x`. */
  lemma WrapInner(x: int, a: int)
    ensures Wrap32(x - Wrap32(a)) == Wrap32(x - a)
    ensures Wrap32(Wrap32(a) - x) == Wrap32(a - x)
  {
    var q := (a + 0x8000_0000) / 0x1_0000_0000;
    WrapOffset(a);
    assert x - Wrap32(a) == (x - a) + q * 0x1_0000_0000;
    WrapShift(x - a, q);
    assert Wrap32(a) - x == (a - x) + (-q) * 0x1_0000_0000;
    WrapShift(a - x, -q);
  }

  /** Java's `(x + w) - x` is `w`, overflow or not. */
  lemma WrapBack(x: Int32, w: Int32)
    ensures Wrap32(Wrap32(x + w) - x) == w
  {
    WrapInner(x, x + w);
  }

  /** org.opencv.core.Rect: top-left corner (x, y), then width and height. */
  datatype Rect = Rect(x: Int32, y: Int32, width: Int32, height: Int32)

  /** org.opencv.core.Point with the integer coordinates the detector stores
      in a MatOfPoint. */
  datatype Point = Point(x: Int32, y: Int32)

  /** A MatOfPoint: a closed polygon given by its vertices in order. */
  type Polygon = seq<Point>

  /** A contour as the detector uses it: its bounding rectangle
      (Imgproc.boundingRect) and its enclosed area (Imgproc.contourArea, a
      double), both supplied by the contour extraction. */
  datatype Contour = Contour(bounds: Rect, area: real)

  /** `x + width` as the Java expression computes it: the exact sum when it
      does not overflow, and in every case an edge from which Java's
      `right - x` recovers the width. */
  function Right(r: Rect): (right: Int32)
    ensures InInt32(r.x + r.width) ==> right == r.x + r.width
    ensures Wrap32(right - r.x) == r.width
  {
    WrapBack(r.x, r.width);
    Wrap32(r.x + r.width)
  }

  /** `y + height` as the Java expression computes it, likewise. */
  function Bottom(r: Rect): (bottom: Int32)
    ensures InInt32(r.y + r.height) ==> bottom == r.y + r.height
    ensures Wrap32(bottom - r.y) == r.height
  {
    WrapBack(r.y, r.height);
    Wrap32(r.y + r.height)
  }

  /** A rectangle with non-negative position and size whose right and
      bottom edges are Java `int`s, so none of the detector's sums on it
      overflows. */
  predicate NoOverflow(r: Rect) {
    0 <= r.x && 0 <= r.y && 0 <= r.width && 0 <= r.height &&
    r.x + r.width <= MaxInt32 && r.y + r.height <= MaxInt32
  }

  /** The polygon `(x,y), (x+w,y), (x+w,y+h), (x,y+h)`: the rectangle's
      corners clockwise from the top-left one. */
  function Quad(r: Rect): (q: Polygon)
    ensures |q| == 4
    ensures q[0] == Point(r.x, r.y)
    ensures q[0].y == q[1].y && q[1].x == q[2].x && q[2].y == q[3].y && q[3].x == q[0].x
    ensures NoOverflow(r) ==> q[2] == Point(r.x + r.width, r.y + r.height)
  {
    [Point(r.x, r.y), Point(Right(r), r.y), Point(Right(r), Bottom(r)), Point(r.x, Bottom(r))]
  }

  /** Reads a rectangle back from the top-left and bottom-right vertices of a
      four-corner polygon, with Java `int` subtraction. */
  function RectOfQuad(q: Polygon): Rect
    requires |q| == 4
  {
    Rect(q[0].x, q[0].y, Wrap32(q[2].x - q[0].x), Wrap32(q[2].y - q[0].y))
  }

  /** The emitted polygon determines the rectangle it was built from, even
      when `x + width` or `y + height` wraps around. */
  lemma QuadRoundTrip(r: Rect)
    ensures RectOfQuad(Quad(r)) == r
  {
    WrapBack(r.x, r.width);
    WrapBack(r.y, r.height);
  }
}
