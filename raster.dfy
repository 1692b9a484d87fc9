/**
  Layout of the interleaved RGBA raster the pipeline works on: `w * h` pixels in
  row-major order, four bytes (R, G, B, alpha/weight) per pixel.  Pixel `(x, y)`
  has index `y * w + x` and its bytes start at offset `4 * (y * w + x)`.
 */
module Raster {

  /** An unsigned 8-bit channel value (`unsigned char`). */
  type byte = b: int | 0 <= b < 256

  /** A pixel coordinate, the `point` record of the flood fill's work list. */
  datatype Point = Point(x: int, y: int)

  predicate InBounds(w: int, h: int, p: Point) {
    0 <= p.x < w && 0 <= p.y < h
  }

  /** Pixels that have a full 3x3 neighbourhood. */
  predicate Interior(w: int, h: int, p: Point) {
    1 <= p.x < w - 1 && 1 <= p.y < h - 1
  }

  /** `p` and `q` are grid neighbours: they differ by one step along one axis. */
  predicate Adjacent(p: Point, q: Point) {
    (p.x == q.x && (p.y - q.y == 1 || q.y - p.y == 1))
    || (p.y == q.y && (p.x - q.x == 1 || q.x - p.x == 1))
  }

  /**
    Index of the first pixel of row `y`, that is `y * w` (RowStartIsProduct);
    spelled out as repeated addition so that offsets stay linear terms.
   */
  function RowStart(w: nat, y: nat): nat {
    if y == 0 then 0 else RowStart(w, y - 1) + w
  }

  lemma {:induction false} RowStartIsProduct(w: nat, y: nat)
    ensures RowStart(w, y) == y * w
  {
    if y > 0 {
      RowStartIsProduct(w, y - 1);
      assert y * w == (y - 1) * w + w;
    }
  }

  /** Rows are laid out one after the other, `w` pixels each. */
  lemma {:induction false} RowStartMonotone(w: nat, y1: nat, y2: nat)
    requires y1 < y2
    ensures RowStart(w, y1) + w <= RowStart(w, y2)
    decreases y2
  {
    if y1 + 1 < y2 {
      RowStartMonotone(w, y1, y2 - 1);
    }
  }

  /** Row-major order of pixels is the order of their indices. */
  lemma RowMajorOrder(w: nat, x1: nat, y1: nat, x2: nat, y2: nat)
    requires x1 < w && x2 < w
    requires y1 < y2 || (y1 == y2 && x1 < x2)
    ensures RowStart(w, y1) + x1 < RowStart(w, y2) + x2
  {
    if y1 < y2 {
      RowStartMonotone(w, y1, y2);
    }
  }

  /** The row-major index `y * w + x` of an in-bounds pixel. */
  function Index(w: nat, h: nat, p: Point): (i: nat)
    requires InBounds(w, h, p)
    ensures i < w * h
  {
    RowStartMonotone(w, p.y, h);
    RowStartIsProduct(w, h);
    RowStart(w, p.y) + p.x
  }

  /** The offset of the red byte of an in-bounds pixel in a `w * h * 4` byte buffer. */
  function Offset(w: nat, h: nat, p: Point): (o: nat)
    requires InBounds(w, h, p)
    ensures o + 3 < w * h * 4
  {
    4 * Index(w, h, p)
  }

  /** A multiple of `w` by at least one is at least `w`. */
  lemma MulAtLeast(d: int, w: nat)
    requires d >= 1
    ensures d * w >= w
  {
    assert d * w == (d - 1) * w + w;
  }

  /** `y * w + x` with `x < w` has quotient `y` and remainder `x`. */
  lemma DivModUnique(w: nat, x: nat, y: nat)
    requires x < w
    ensures (y * w + x) / w == y && (y * w + x) % w == x
  {
    var i := y * w + x;
    var q, r := i / w, i % w;
    assert i == q * w + r && 0 <= r < w;
    if y > q {
      MulAtLeast(y - q, w);
      assert false;
    } else if y < q {
      MulAtLeast(q - y, w);
      assert false;
    }
  }

  /** An index splits back into its column and row. */
  lemma SplitIndex(w: nat, h: nat, p: Point)
    requires InBounds(w, h, p)
    ensures Index(w, h, p) / w == p.y && Index(w, h, p) % w == p.x
  {
    RowStartIsProduct(w, p.y);
    DivModUnique(w, p.x, p.y);
  }

  /** Every index below `w * h` is the index of exactly one in-bounds pixel. */
  lemma PointOfIndex(w: nat, h: nat, i: nat)
    requires i < w * h
    ensures w > 0 && InBounds(w, h, Point(i % w, i / w))
    ensures Index(w, h, Point(i % w, i / w)) == i
  {
    assert w != 0;
    var q := i / w;
    assert i == q * w + i % w;
    RowStartIsProduct(w, q);
  }

  /** A pixel earlier in row-major order has all four of its bytes before those of a later one. */
  lemma OffsetOrder(w: nat, h: nat, p: Point, q: Point)
    requires InBounds(w, h, p) && InBounds(w, h, q)
    requires p.y < q.y || (p.y == q.y && p.x < q.x)
    ensures Offset(w, h, p) + 4 <= Offset(w, h, q)
  {
    RowMajorOrder(w, p.x, p.y, q.x, q.y);
  }
}
