/**
  The Sobel edge filter (`apply_filter`): every interior pixel is replaced by the
  clamped gradient magnitude of the grey values `(r + g + b) / 3` of its 3x3
  neighbourhood in the unfiltered image, written to all three colour channels;
  its alpha byte is kept.
 */
module EdgeFilter {
  import opened Raster

  /** The two fixed kernels, indexed `[dy + 1][dx + 1]`. */
  const SOBEL_X: seq<seq<int>> := [[-1, 0, 1], [-2, 0, 2], [-1, 0, 1]]
  const SOBEL_Y: seq<seq<int>> := [[1, 2, 1], [0, 0, 0], [-1, -2, -1]]

  datatype Axis = Horizontal | Vertical

  function Coeff(axis: Axis, i: nat, j: nat): int
    requires i < 3 && j < 3
  {
    if axis == Horizontal then SOBEL_X[i][j] else SOBEL_Y[i][j]
  }

  /** Integer grey value of a pixel, with C's truncating division (operands are non-negative). */
  function GrayAt(s: seq<byte>, w: nat, h: nat, p: Point): int
    requires |s| == w * h * 4 && InBounds(w, h, p)
  {
    var o := Offset(w, h, p);
    (s[o] as int + s[o + 1] as int + s[o + 2] as int) / 3
  }

  /**
    The grey values of the 3x3 neighbourhood of an interior pixel, in the order of
    the filter's `dy`/`dx` loops: entry `3 * (dy + 1) + (dx + 1)` is neighbour
    `(p.x + dx, p.y + dy)`.
   */
  function Window(s: seq<byte>, w: nat, h: nat, p: Point): (win: seq<int>)
    requires |s| == w * h * 4 && Interior(w, h, p)
    ensures |win| == 9
  {
    seq(9, k requires 0 <= k < 9 => GrayAt(s, w, h, Point(p.x + k % 3 - 1, p.y + k / 3 - 1)))
  }

  /** Entry `3 * (dy + 1) + (dx + 1)` of the window is the grey value of neighbour `(p.x + dx, p.y + dy)`. */
  lemma WindowEntry(s: seq<byte>, w: nat, h: nat, p: Point, dx: int, dy: int)
    requires |s| == w * h * 4 && Interior(w, h, p) && -1 <= dx <= 1 && -1 <= dy <= 1
    ensures Window(s, w, h, p)[3 * (dy + 1) + (dx + 1)] == GrayAt(s, w, h, Point(p.x + dx, p.y + dy))
  {
    var k := 3 * (dy + 1) + (dx + 1);
    assert k / 3 == dy + 1 && k % 3 == dx + 1;
  }

  /** The kernel dot product over the first `j` entries of a window, as the loops accumulate it. */
  function KernelSum(win: seq<int>, axis: Axis, j: nat): int
    requires |win| == 9 && j <= 9
  {
    if j == 0 then 0
    else KernelSum(win, axis, j - 1) + Coeff(axis, (j - 1) / 3, (j - 1) % 3) * win[j - 1]
  }

  /** One step of the loops adds the term of neighbour `(dx, dy)`. */
  lemma KernelSumStep(win: seq<int>, axis: Axis, dy: int, dx: int)
    requires |win| == 9 && -1 <= dx <= 1 && -1 <= dy <= 1
    ensures var k := 3 * (dy + 1) + (dx + 1);
            KernelSum(win, axis, k + 1) == KernelSum(win, axis, k) + Coeff(axis, dy + 1, dx + 1) * win[k]
  {
    var k := 3 * (dy + 1) + (dx + 1);
    assert k / 3 == dy + 1 && k % 3 == dx + 1;
  }

  /**
    The Sobel gradients of a window, written out as the usual kernel formulas:
    right column minus left column, and top row minus bottom row.
   */
  function Gradient(win: seq<int>, axis: Axis): int
    requires |win| == 9
  {
    if axis == Horizontal then
      (win[2] + 2 * win[5] + win[8]) - (win[0] + 2 * win[3] + win[6])
    else
      (win[0] + 2 * win[1] + win[2]) - (win[6] + 2 * win[7] + win[8])
  }

  /** Integer floor square root: what `(int)sqrt(n)` yields for the small exact integers here. */
  function Isqrt(n: nat): (r: nat)
    ensures r * r <= n < (r + 1) * (r + 1)
  {
    if n < 4 then (if n == 0 then 0 else 1)
    else
      var t := Isqrt(n / 4);
      DoubleRoot(n, t);
      var s := 2 * t;
      if (s + 1) * (s + 1) <= n then s + 1 else s
  }

  /** Doubling the floor root of `n / 4` brackets `n` between consecutive even squares. */
  lemma DoubleRoot(n: nat, t: nat)
    requires t * t <= n / 4 < (t + 1) * (t + 1)
    ensures (2 * t) * (2 * t) <= n < (2 * t + 2) * (2 * t + 2)
  {
    assert (2 * t) * (2 * t) == 4 * (t * t);
    assert (2 * t + 2) * (2 * t + 2) == 4 * ((t + 1) * (t + 1));
  }

  /** The clamped floor norm of a pair of gradients. */
  function ClampedNorm(gx: int, gy: int): byte
  {
    var mag := Isqrt(gx * gx + gy * gy);
    if mag > 255 then 255 else mag
  }

  /** The filtered value of an interior pixel: the gradient magnitude, truncated and clamped to 255. */
  function Magnitude(s: seq<byte>, w: nat, h: nat, p: Point): byte
    requires |s| == w * h * 4 && Interior(w, h, p)
  {
    var win := Window(s, w, h, p);
    ClampedNorm(Gradient(win, Horizontal), Gradient(win, Vertical))
  }

  /**
    Pixel `p` of `s` holds the filter's output for the unfiltered image `s0`:
    the magnitude in all three colour bytes, and the alpha byte of `s0`.
   */
  predicate FilteredAt(s0: seq<byte>, s: seq<byte>, w: nat, h: nat, p: Point)
    requires |s0| == w * h * 4 && |s| == w * h * 4 && Interior(w, h, p)
  {
    var o := Offset(w, h, p);
    var m := Magnitude(s0, w, h, p);
    s[o] == m && s[o + 1] == m && s[o + 2] == m && s[o + 3] == s0[o + 3]
  }

  /** The grey value of pixel `q`, read from the image as the filter's inner loop does. */
  method ReadGray(img: array<byte>, w: nat, h: nat, q: Point) returns (gray: int)
    requires img.Length == w * h * 4 && InBounds(w, h, q)
    ensures gray == GrayAt(img[..], w, h, q)
    ensures 0 <= gray <= 255
  {
    var idx := Offset(w, h, q);
    gray := (img[idx] as int + img[idx + 1] as int + img[idx + 2] as int) / 3;
  }

  /**
    The inner `dx` loop of the kernel loops for kernel row `dy`: adds the three
    terms of that row to both running sums.
   */
  method KernelRow(img: array<byte>, w: nat, h: nat, p: Point, ghost win: seq<int>, dy: int, gx0: int, gy0: int)
    returns (gx: int, gy: int)
    requires img.Length == w * h * 4 && Interior(w, h, p) && -1 <= dy <= 1
    requires win == Window(img[..], w, h, p)
    requires gx0 == KernelSum(win, Horizontal, 3 * (dy + 1))
    requires gy0 == KernelSum(win, Vertical, 3 * (dy + 1))
    ensures gx == KernelSum(win, Horizontal, 3 * (dy + 1) + 3)
    ensures gy == KernelSum(win, Vertical, 3 * (dy + 1) + 3)
  {
    gx, gy := gx0, gy0;
    var dx := -1;
    while dx <= 1
      invariant -1 <= dx <= 2
      invariant gx == KernelSum(win, Horizontal, 3 * (dy + 1) + (dx + 1))
      invariant gy == KernelSum(win, Vertical, 3 * (dy + 1) + (dx + 1))
    {
      WindowEntry(img[..], w, h, p, dx, dy);
      KernelSumStep(win, Horizontal, dy, dx);
      KernelSumStep(win, Vertical, dy, dx);
      var gray := ReadGray(img, w, h, Point(p.x + dx, p.y + dy));
      gx := gx + Coeff(Horizontal, dy + 1, dx + 1) * gray;
      gy := gy + Coeff(Vertical, dy + 1, dx + 1) * gray;
      dx := dx + 1;
    }
    assert dx == 2;
  }

  /** The `dy`/`dx` loops of `apply_filter`: both kernel dot products at interior pixel `p`. */
  method Sobel(img: array<byte>, w: nat, h: nat, p: Point) returns (gx: int, gy: int)
    requires img.Length == w * h * 4 && Interior(w, h, p)
    ensures gx == Gradient(Window(img[..], w, h, p), Horizontal)
    ensures gy == Gradient(Window(img[..], w, h, p), Vertical)
  {
    ghost var win := Window(img[..], w, h, p);
    gx, gy := 0, 0;
    var dy := -1;
    while dy <= 1
      invariant -1 <= dy <= 2
      invariant gx == KernelSum(win, Horizontal, 3 * (dy + 1))
      invariant gy == KernelSum(win, Vertical, 3 * (dy + 1))
    {
      gx, gy := KernelRow(img, w, h, p, win, dy, gx, gy);
      dy := dy + 1;
    }
    KernelSumIsGradient(win, Horizontal);
    KernelSumIsGradient(win, Vertical);
  }

  /**
    Filtering pixel `p` while changing no byte before it extends the filtered
    row-major prefix of interior pixels by `p`.
   */
  lemma FilteredExtend(s0: seq<byte>, before: seq<byte>, after: seq<byte>, w: nat, h: nat, p: Point)
    requires |s0| == w * h * 4 && |before| == w * h * 4 && |after| == w * h * 4 && Interior(w, h, p)
    requires forall k :: 0 <= k < Offset(w, h, p) ==> after[k] == before[k]
    requires forall q :: Interior(w, h, q) && (q.y < p.y || (q.y == p.y && q.x < p.x)) ==>
               FilteredAt(s0, before, w, h, q)
    requires FilteredAt(s0, after, w, h, p)
    ensures forall q :: Interior(w, h, q) && (q.y < p.y || (q.y == p.y && q.x < p.x + 1)) ==>
              FilteredAt(s0, after, w, h, q)
  {
    forall q | Interior(w, h, q) && (q.y < p.y || (q.y == p.y && q.x < p.x + 1))
      ensures FilteredAt(s0, after, w, h, q)
    {
      if q != p {
        OffsetOrder(w, h, q, p);
        assert FilteredAt(s0, before, w, h, q);
      }
    }
  }

  /** The body of the `y`/`x` loops: filters interior pixel `p` of `img` into `buf`. */
  method FilterPixel(img: array<byte>, buf: array<byte>, w: nat, h: nat, p: Point)
    requires img.Length == w * h * 4 && buf.Length == w * h * 4 && img != buf
    requires Interior(w, h, p)
    modifies buf
    ensures FilteredAt(img[..], buf[..], w, h, p)
    ensures forall k :: 0 <= k < buf.Length && (k < Offset(w, h, p) || Offset(w, h, p) + 4 <= k) ==>
              buf[k] == old(buf[k])
  {
    var gx, gy := Sobel(img, w, h, p);
    var mag := ClampedNorm(gx, gy);
    var pos := Offset(w, h, p);
    buf[pos], buf[pos + 1], buf[pos + 2], buf[pos + 3] := mag, mag, mag, img[pos + 3];
  }

  /**
    The inner `x` loop of `apply_filter`: filters the interior pixels of row `y`,
    extending the filtered prefix of the rows above it.
   */
  method FilterRow(img: array<byte>, buf: array<byte>, w: nat, h: nat, y: int)
    requires img.Length == w * h * 4 && buf.Length == w * h * 4 && img != buf
    requires 1 <= y < h - 1
    requires forall q :: Interior(w, h, q) && (q.y < y || (q.y == y && q.x < 1)) ==>
               FilteredAt(img[..], buf[..], w, h, q)
    modifies buf
    ensures forall q :: Interior(w, h, q) && (q.y < y + 1 || (q.y == y + 1 && q.x < 1)) ==>
              FilteredAt(img[..], buf[..], w, h, q)
  {
    var x := 1;
    while x < w - 1
      invariant 1 <= x && (x <= w - 1 || w < 2)
      invariant forall q :: Interior(w, h, q) && (q.y < y || (q.y == y && q.x < x)) ==>
                  FilteredAt(img[..], buf[..], w, h, q)
    {
      ghost var before := buf[..];
      FilterPixel(img, buf, w, h, Point(x, y));
      FilteredExtend(img[..], before, buf[..], w, h, Point(x, y));
      x := x + 1;
    }
  }

  /**
    The `y`/`x` loops of `apply_filter`: the output of every interior pixel of
    `img` goes to the same position of the scratch buffer `buf`.
   */
  method FilterInto(img: array<byte>, buf: array<byte>, w: nat, h: nat)
    requires img.Length == w * h * 4 && buf.Length == w * h * 4 && img != buf
    modifies buf
    ensures forall q :: Interior(w, h, q) ==> FilteredAt(img[..], buf[..], w, h, q)
  {
    var y := 1;
    while y < h - 1
      invariant 1 <= y && (y <= h - 1 || h < 2)
      invariant forall q :: Interior(w, h, q) && (q.y < y || (q.y == y && q.x < 1)) ==>
                  FilteredAt(img[..], buf[..], w, h, q)
    {
      FilterRow(img, buf, w, h, y);
      y := y + 1;
    }
  }

  /**
    `apply_filter`: the output goes to a scratch buffer and is then copied over
    the whole image.  Border pixels come from the scratch buffer's unwritten
    bytes, so nothing is promised about them.
   */
  method ApplyFilter(img: array<byte>, w: nat, h: nat)
    requires img.Length == w * h * 4
    modifies img
    ensures forall p :: Interior(w, h, p) ==> FilteredAt(old(img[..]), img[..], w, h, p)
  {
    var buf := new byte[w * h * 4];
    FilterInto(img, buf, w, h);
    var i := 0;
    while i < w * h * 4
      invariant 0 <= i <= w * h * 4
      invariant forall k :: 0 <= k < i ==> img[k] == buf[k]
      modifies img
    {
      img[i] := buf[i];
      i := i + 1;
    }
    assert img[..] == buf[..];
  }

  /** The table-driven sums of the `dy`/`dx` loops are the two Sobel kernel formulas. */
  lemma {:induction false} KernelSumIsGradient(win: seq<int>, axis: Axis)
    requires |win| == 9
    ensures KernelSum(win, axis, 9) == Gradient(win, axis)
  {
    assert KernelSum(win, axis, 1) == KernelSum(win, axis, 0) + Coeff(axis, 0, 0) * win[0];
    assert KernelSum(win, axis, 2) == KernelSum(win, axis, 1) + Coeff(axis, 0, 1) * win[1];
    assert KernelSum(win, axis, 3) == KernelSum(win, axis, 2) + Coeff(axis, 0, 2) * win[2];
    assert KernelSum(win, axis, 4) == KernelSum(win, axis, 3) + Coeff(axis, 1, 0) * win[3];
    assert KernelSum(win, axis, 5) == KernelSum(win, axis, 4) + Coeff(axis, 1, 1) * win[4];
    assert KernelSum(win, axis, 6) == KernelSum(win, axis, 5) + Coeff(axis, 1, 2) * win[5];
    assert KernelSum(win, axis, 7) == KernelSum(win, axis, 6) + Coeff(axis, 2, 0) * win[6];
    assert KernelSum(win, axis, 8) == KernelSum(win, axis, 7) + Coeff(axis, 2, 1) * win[7];
    assert KernelSum(win, axis, 9) == KernelSum(win, axis, 8) + Coeff(axis, 2, 2) * win[8];
    assert Coeff(axis, 1, 1) == 0;
    if axis == Horizontal {
      assert Coeff(axis, 0, 1) == 0 && Coeff(axis, 2, 1) == 0;
    } else {
      assert Coeff(axis, 1, 0) == 0 && Coeff(axis, 1, 2) == 0;
    }
  }

  /** The filtered value is the floor of the Euclidean gradient norm, saturated at 255. */
  lemma ClampedNormIsFloorNorm(gx: int, gy: int)
    ensures var n := gx * gx + gy * gy;
            var r := ClampedNorm(gx, gy);
            r * r <= n && (r == 255 || n < (r + 1) * (r + 1))
            && (r < 255 ==> r == Isqrt(n))
  {
    var m := Isqrt(gx * gx + gy * gy);
    if m > 255 {
      assert 255 * 255 <= m * m;
    }
  }

  /** A window of equal grey values has no gradient. */
  lemma {:induction false} FlatWindowNoGradient(win: seq<int>, axis: Axis)
    requires |win| == 9 && forall k :: 0 <= k < 9 ==> win[k] == win[4]
    ensures Gradient(win, axis) == 0
  {
    assert win[0] == win[4] && win[1] == win[4] && win[2] == win[4] && win[3] == win[4];
    assert win[5] == win[4] && win[6] == win[4] && win[7] == win[4] && win[8] == win[4];
  }

  /** In a region of one grey level, every window entry equals the centre entry. */
  lemma FlatEntry(s: seq<byte>, w: nat, h: nat, p: Point, k: nat)
    requires |s| == w * h * 4 && Interior(w, h, p) && k < 9
    requires forall q: Point :: InBounds(w, h, q) && -1 <= q.x - p.x <= 1 && -1 <= q.y - p.y <= 1 ==>
               GrayAt(s, w, h, q) == GrayAt(s, w, h, p)
    ensures Window(s, w, h, p)[k] == Window(s, w, h, p)[4]
  {
    var dx, dy := k % 3 - 1, k / 3 - 1;
    assert 3 * (dy + 1) + (dx + 1) == k;
    WindowEntry(s, w, h, p, dx, dy);
    WindowEntry(s, w, h, p, 0, 0);
  }

  /** An interior pixel whose nine neighbours have equal grey values filters to black. */
  lemma FlatRegionFiltersToZero(s: seq<byte>, w: nat, h: nat, p: Point)
    requires |s| == w * h * 4 && Interior(w, h, p)
    requires forall q: Point :: InBounds(w, h, q) && -1 <= q.x - p.x <= 1 && -1 <= q.y - p.y <= 1 ==>
               GrayAt(s, w, h, q) == GrayAt(s, w, h, p)
    ensures Magnitude(s, w, h, p) == 0
  {
    var win := Window(s, w, h, p);
    forall k | 0 <= k < 9
      ensures win[k] == win[4]
    {
      FlatEntry(s, w, h, p, k);
    }
    FlatWindowNoGradient(win, Horizontal);
    FlatWindowNoGradient(win, Vertical);
  }
}
