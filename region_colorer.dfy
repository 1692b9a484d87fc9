/**
  Colouring of dark regions (`flood`, `color_components`).  Every interior
  pixel whose red byte is still below the threshold seeds a flood fill that
  paints, in one drawn colour, every pixel the fill can reach from it through
  pixels whose red byte is at most the threshold.
 */
module RegionColorer {
  import opened Raster

  /** The colour a region is painted with: three `rand() % 256` draws. */
  datatype Colour = Colour(r: byte, g: byte, b: byte)

  /** The fill's four directions, in the order of its `dirs` table. */
  const Dirs: seq<Point> := [Point(0, 1), Point(1, 0), Point(0, -1), Point(-1, 0)]

  function Moved(p: Point, d: Point): Point {
    Point(p.x + d.x, p.y + d.y)
  }

  /**
    The bounds test a neighbour must pass to be pushed.  It is stricter than
    `InBounds`: column 0 and row 0 never pass it.
   */
  predicate PushBounds(w: int, h: int, q: Point) {
    0 < q.x < w && 0 < q.y < h
  }

  /** The red byte of pixel `q`, the only channel the fill looks at. */
  function Red(img: seq<byte>, w: nat, h: nat, q: Point): byte
    requires |img| == w * h * 4 && InBounds(w, h, q)
  {
    img[Offset(w, h, q)]
  }

  /** Pixel `q` of `img` is `c` over the alpha of `img0` when `painted`, else as in `img0`. */
  predicate PixelOutcome(img0: seq<byte>, img: seq<byte>, w: nat, h: nat, q: Point, c: Colour, painted: bool)
    requires |img0| == w * h * 4 && |img| == w * h * 4 && InBounds(w, h, q)
  {
    var o := Offset(w, h, q);
    && img[o + 3] == img0[o + 3]
    && (if painted then img[o] == c.r && img[o + 1] == c.g && img[o + 2] == c.b
        else img[o] == img0[o] && img[o + 1] == img0[o + 1] && img[o + 2] == img0[o + 2])
  }

  /** Paints the colour bytes of pixel `p`, leaving its alpha. */
  function Paint(img: seq<byte>, w: nat, h: nat, p: Point, c: Colour): (r: seq<byte>)
    requires |img| == w * h * 4 && InBounds(w, h, p)
    ensures |r| == |img|
  {
    var o := Offset(w, h, p);
    img[o := c.r][o + 1 := c.g][o + 2 := c.b]
  }

  /** Painting `p` changes pixel `p` to `c` and no other pixel. */
  lemma PaintOutcome(img: seq<byte>, w: nat, h: nat, p: Point, c: Colour, q: Point)
    requires |img| == w * h * 4 && InBounds(w, h, p) && InBounds(w, h, q)
    ensures PixelOutcome(img, Paint(img, w, h, p, c), w, h, q, c, q == p)
  {
    if q.y < p.y || (q.y == p.y && q.x < p.x) {
      OffsetOrder(w, h, q, p);
    } else if q != p {
      OffsetOrder(w, h, p, q);
    }
  }

  /** `[q]` when the fill pushes neighbour `q`, else `[]`. */
  function PushIf(img: seq<byte>, w: nat, h: nat, q: Point, oldVal: int): seq<Point>
    requires |img| == w * h * 4
  {
    if PushBounds(w, h, q) && Red(img, w, h, q) <= oldVal then [q] else []
  }

  /** What the fill pushes for the first `n` directions around `p`. */
  function Pushes(img: seq<byte>, w: nat, h: nat, p: Point, oldVal: int, n: nat): seq<Point>
    requires |img| == w * h * 4 && n <= 4
  {
    if n == 0 then [] else Pushes(img, w, h, p, oldVal, n - 1) + PushIf(img, w, h, Moved(p, Dirs[n - 1]), oldVal)
  }

  /** The four directions' pushes, concatenated. */
  lemma PushesUnfold(img: seq<byte>, w: nat, h: nat, p: Point, oldVal: int)
    requires |img| == w * h * 4
    ensures Pushes(img, w, h, p, oldVal, 4) ==
            PushIf(img, w, h, Point(p.x, p.y + 1), oldVal) + PushIf(img, w, h, Point(p.x + 1, p.y), oldVal)
            + PushIf(img, w, h, Point(p.x, p.y - 1), oldVal) + PushIf(img, w, h, Point(p.x - 1, p.y), oldVal)
  {
    var d0, d1, d2, d3 := PushIf(img, w, h, Point(p.x, p.y + 1), oldVal), PushIf(img, w, h, Point(p.x + 1, p.y), oldVal),
                          PushIf(img, w, h, Point(p.x, p.y - 1), oldVal), PushIf(img, w, h, Point(p.x - 1, p.y), oldVal);
    assert Moved(p, Dirs[0]) == Point(p.x, p.y + 1) && Moved(p, Dirs[1]) == Point(p.x + 1, p.y);
    assert Moved(p, Dirs[2]) == Point(p.x, p.y - 1) && Moved(p, Dirs[3]) == Point(p.x - 1, p.y);
    assert Pushes(img, w, h, p, oldVal, 1) == d0;
    assert Pushes(img, w, h, p, oldVal, 2) == d0 + d1;
    assert Pushes(img, w, h, p, oldVal, 3) == d0 + d1 + d2;
  }

  /** The fill pushes exactly the neighbours of `p` that pass the bounds test and are dark enough. */
  lemma PushesAreDarkNeighbours(img: seq<byte>, w: nat, h: nat, p: Point, oldVal: int, q: Point)
    requires |img| == w * h * 4
    ensures q in Pushes(img, w, h, p, oldVal, 4) <==>
            Adjacent(p, q) && PushBounds(w, h, q) && Red(img, w, h, q) <= oldVal
  {
    PushesUnfold(img, w, h, p, oldVal);
    var n0, n1, n2, n3 := Point(p.x, p.y + 1), Point(p.x + 1, p.y), Point(p.x, p.y - 1), Point(p.x - 1, p.y);
    PushIfMember(img, w, h, n0, oldVal, q);
    PushIfMember(img, w, h, n1, oldVal, q);
    PushIfMember(img, w, h, n2, oldVal, q);
    PushIfMember(img, w, h, n3, oldVal, q);
    assert Adjacent(p, q) <==> q == n0 || q == n1 || q == n2 || q == n3;
  }

  lemma PushIfMember(img: seq<byte>, w: nat, h: nat, n: Point, oldVal: int, q: Point)
    requires |img| == w * h * 4
    ensures q in PushIf(img, w, h, n, oldVal) <==> q == n && PushBounds(w, h, n) && Red(img, w, h, n) <= oldVal
  {
  }

  /** The `for (i = 0; i < 4; i++)` loop of `flood`: pushes the dark neighbours of `p`. */
  method PushNeighbours(img: array<byte>, w: nat, h: nat, p: Point, oldVal: int, stack0: seq<Point>)
    returns (stack: seq<Point>)
    requires img.Length == w * h * 4
    ensures stack == stack0 + Pushes(img[..], w, h, p, oldVal, 4)
  {
    stack := stack0;
    for i := 0 to 4
      invariant stack == stack0 + Pushes(img[..], w, h, p, oldVal, i)
    {
      var n := Moved(p, Dirs[i]);
      if 0 < n.x < w && 0 < n.y < h {
        var nidx := Offset(w, h, n);
        if img[nidx] <= oldVal {
          stack := stack + [n];
        }
      }
    }
  }

  /** The image and the work list of a running fill. */
  datatype FloodState = FloodState(img: seq<byte>, stack: seq<Point>)

  /**
    One iteration of `flood`'s `while (top > 0)` loop: pop a point; skip it
    when it lies outside the image or its red byte exceeds `oldVal`; else
    paint it and push its dark neighbours.
   */
  function FloodStep(s: FloodState, w: nat, h: nat, c: Colour, oldVal: int): (t: FloodState)
    requires |s.img| == w * h * 4 && s.stack != []
    ensures |t.img| == |s.img|
  {
    var p := s.stack[|s.stack| - 1];
    var rest := s.stack[..|s.stack| - 1];
    if !InBounds(w, h, p) || Red(s.img, w, h, p) > oldVal then FloodState(s.img, rest)
    else
      var img := Paint(s.img, w, h, p, c);
      FloodState(img, rest + Pushes(img, w, h, p, oldVal, 4))
  }

  /** `n` iterations of the loop, or fewer if the work list empties. */
  function Run(s: FloodState, w: nat, h: nat, c: Colour, oldVal: int, n: nat): (t: FloodState)
    requires |s.img| == w * h * 4
    ensures |t.img| == |s.img|
    decreases n
  {
    if n == 0 || s.stack == [] then s else Run(FloodStep(s, w, h, c, oldVal), w, h, c, oldVal, n - 1)
  }

  /**
    A chain the fill can follow in `img0`: it starts at an in-bounds pixel, and
    every later pixel is a neighbour of the one before that passes the push
    bounds; every pixel on it has red at most `oldVal`.
   */
  ghost predicate IsFillPath(img0: seq<byte>, w: nat, h: nat, oldVal: int, path: seq<Point>)
    requires |img0| == w * h * 4
  {
    && |path| > 0
    && InBounds(w, h, path[0]) && Red(img0, w, h, path[0]) <= oldVal
    && (forall k :: 0 < k < |path| ==> PushBounds(w, h, path[k]) && Red(img0, w, h, path[k]) <= oldVal)
    && (forall k :: 0 <= k < |path| - 1 ==> Adjacent(path[k], path[k + 1]))
  }

  /** The region a fill from `start` paints in `img0`. */
  ghost predicate Reach(img0: seq<byte>, w: nat, h: nat, oldVal: int, start: Point, q: Point)
    requires |img0| == w * h * 4
  {
    exists path :: IsFillPath(img0, w, h, oldVal, path) && path[0] == start && path[|path| - 1] == q
  }

  lemma ReachStart(img0: seq<byte>, w: nat, h: nat, oldVal: int, start: Point)
    requires |img0| == w * h * 4 && InBounds(w, h, start) && Red(img0, w, h, start) <= oldVal
    ensures Reach(img0, w, h, oldVal, start, start)
  {
    assert IsFillPath(img0, w, h, oldVal, [start]);
  }

  lemma ReachExtend(img0: seq<byte>, w: nat, h: nat, oldVal: int, start: Point, p: Point, q: Point)
    requires |img0| == w * h * 4 && Reach(img0, w, h, oldVal, start, p)
    requires Adjacent(p, q) && PushBounds(w, h, q) && Red(img0, w, h, q) <= oldVal
    ensures Reach(img0, w, h, oldVal, start, q)
  {
    var path :| IsFillPath(img0, w, h, oldVal, path) && path[0] == start && path[|path| - 1] == p;
    var longer := path + [q];
    assert IsFillPath(img0, w, h, oldVal, longer);
  }

  /** Every pixel of the region lies in the image and is dark enough. */
  lemma ReachIsDark(img0: seq<byte>, w: nat, h: nat, oldVal: int, start: Point, q: Point)
    requires |img0| == w * h * 4 && Reach(img0, w, h, oldVal, start, q)
    ensures InBounds(w, h, q) && Red(img0, w, h, q) <= oldVal
  {
    var path :| IsFillPath(img0, w, h, oldVal, path) && path[0] == start && path[|path| - 1] == q;
    if |path| > 1 {
      assert PushBounds(w, h, path[|path| - 1]);
    }
  }

  /** Every pixel in `done` is painted `c`; every other pixel is as in `img0`. */
  ghost predicate Painted(img0: seq<byte>, img: seq<byte>, w: nat, h: nat, c: Colour, done: set<Point>)
    requires |img0| == w * h * 4 && |img| == w * h * 4
  {
    forall q :: InBounds(w, h, q) ==> PixelOutcome(img0, img, w, h, q, c, q in done)
  }

  /**
    The loop invariant of `flood`, with the painted pixels `done` made
    explicit: they lie in the region, the image is `img0` with them painted,
    every point on the work list is the start or in the region, and every
    dark pushable neighbour of a painted pixel, and the start, is painted or
    still on the work list.
   */
  ghost predicate FillInv(img0: seq<byte>, w: nat, h: nat, c: Colour, oldVal: int, start: Point,
                          s: FloodState, done: set<Point>)
    requires |img0| == w * h * 4 && |s.img| == w * h * 4
  {
    && DoneInRegion(img0, w, h, oldVal, start, done)
    && Painted(img0, s.img, w, h, c, done)
    && StackInRegion(img0, w, h, oldVal, start, s.stack)
    && Closed(img0, w, h, oldVal, done, s.stack)
    && StartQueued(img0, w, h, oldVal, start, done, s.stack)
  }

  ghost predicate DoneInRegion(img0: seq<byte>, w: nat, h: nat, oldVal: int, start: Point, done: set<Point>)
    requires |img0| == w * h * 4
  {
    forall q :: q in done ==> InBounds(w, h, q) && Reach(img0, w, h, oldVal, start, q)
  }

  ghost predicate StackInRegion(img0: seq<byte>, w: nat, h: nat, oldVal: int, start: Point, stack: seq<Point>)
    requires |img0| == w * h * 4
  {
    forall k :: 0 <= k < |stack| ==> stack[k] == start || Reach(img0, w, h, oldVal, start, stack[k])
  }

  ghost predicate Closed(img0: seq<byte>, w: nat, h: nat, oldVal: int, done: set<Point>, stack: seq<Point>)
    requires |img0| == w * h * 4
  {
    forall p, q :: p in done && Adjacent(p, q) && PushBounds(w, h, q) && Red(img0, w, h, q) <= oldVal ==>
      q in done || q in stack
  }

  ghost predicate StartQueued(img0: seq<byte>, w: nat, h: nat, oldVal: int, start: Point, done: set<Point>, stack: seq<Point>)
    requires |img0| == w * h * 4
  {
    InBounds(w, h, start) && Red(img0, w, h, start) <= oldVal ==> start in done || start in stack
  }

  /** All pixels of a `w` by `h` image. */
  function AllPixels(w: nat, h: nat): set<Point> {
    set x, y | 0 <= x < w && 0 <= y < h :: Point(x, y)
  }

  /** Under `Painted`, the red byte tells painted pixels from the rest when `c.r > oldVal`. */
  lemma PaintedRed(img0: seq<byte>, img: seq<byte>, w: nat, h: nat, c: Colour, done: set<Point>, q: Point)
    requires |img0| == w * h * 4 && |img| == w * h * 4 && InBounds(w, h, q)
    requires Painted(img0, img, w, h, c, done)
    ensures Red(img, w, h, q) == if q in done then c.r else Red(img0, w, h, q)
  {
    assert PixelOutcome(img0, img, w, h, q, c, q in done);
  }

  /** A popped point that is skipped keeps the invariant. */
  lemma SkipKeeps(img0: seq<byte>, w: nat, h: nat, c: Colour, oldVal: int, start: Point,
                  s: FloodState, done: set<Point>)
    requires |img0| == w * h * 4 && |s.img| == w * h * 4 && s.stack != [] && c.r > oldVal
    requires FillInv(img0, w, h, c, oldVal, start, s, done)
    requires var p := s.stack[|s.stack| - 1]; !InBounds(w, h, p) || Red(s.img, w, h, p) > oldVal
    ensures FillInv(img0, w, h, c, oldVal, start, FloodState(s.img, s.stack[..|s.stack| - 1]), done)
  {
    var p := s.stack[|s.stack| - 1];
    var rest := s.stack[..|s.stack| - 1];
    assert s.stack == rest + [p];
    forall q | PushBounds(w, h, q) && Red(img0, w, h, q) <= oldVal && q in s.stack
      ensures q in done || q in rest
    {
      PaintedRed(img0, s.img, w, h, c, done, q);
    }
    if InBounds(w, h, start) && Red(img0, w, h, start) <= oldVal && start in s.stack {
      PaintedRed(img0, s.img, w, h, c, done, start);
    }
  }

  /** Painting `p` next to the pixels in `done` extends `Painted` to `done + {p}`. */
  lemma PaintedExtend(img0: seq<byte>, img: seq<byte>, w: nat, h: nat, c: Colour, done: set<Point>, p: Point)
    requires |img0| == w * h * 4 && |img| == w * h * 4 && InBounds(w, h, p) && p !in done
    requires Painted(img0, img, w, h, c, done)
    ensures Painted(img0, Paint(img, w, h, p, c), w, h, c, done + {p})
  {
    forall q | InBounds(w, h, q)
      ensures PixelOutcome(img0, Paint(img, w, h, p, c), w, h, q, c, q in done + {p})
    {
      assert PixelOutcome(img0, img, w, h, q, c, q in done);
      PaintOutcome(img, w, h, p, c, q);
    }
  }

  /** The new work list after painting `p` holds only the start and region pixels. */
  lemma PushedInRegion(img0: seq<byte>, w: nat, h: nat, c: Colour, oldVal: int, start: Point,
                       img: seq<byte>, done: set<Point>, p: Point, rest: seq<Point>)
    requires |img0| == w * h * 4 && |img| == w * h * 4 && c.r > oldVal
    requires Painted(img0, img, w, h, c, done) && p in done && Reach(img0, w, h, oldVal, start, p)
    requires StackInRegion(img0, w, h, oldVal, start, rest)
    ensures StackInRegion(img0, w, h, oldVal, start, rest + Pushes(img, w, h, p, oldVal, 4))
  {
    var pushed := Pushes(img, w, h, p, oldVal, 4);
    var stack := rest + pushed;
    forall k | 0 <= k < |stack|
      ensures stack[k] == start || Reach(img0, w, h, oldVal, start, stack[k])
    {
      if k >= |rest| {
        var q := pushed[k - |rest|];
        PushesAreDarkNeighbours(img, w, h, p, oldVal, q);
        PaintedRed(img0, img, w, h, c, done, q);
        ReachExtend(img0, w, h, oldVal, start, p, q);
      }
    }
  }

  /** After painting `p`, every dark pushable neighbour of a painted pixel is painted or queued. */
  lemma FrontierKept(img0: seq<byte>, w: nat, h: nat, c: Colour, oldVal: int, start: Point,
                     s: FloodState, done: set<Point>, img: seq<byte>)
    requires |img0| == w * h * 4 && |s.img| == w * h * 4 && |img| == w * h * 4 && s.stack != [] && c.r > oldVal
    requires Closed(img0, w, h, oldVal, done, s.stack) && StartQueued(img0, w, h, oldVal, start, done, s.stack)
    requires var p := s.stack[|s.stack| - 1]; p !in done && Painted(img0, img, w, h, c, done + {p})
    ensures var p := s.stack[|s.stack| - 1];
            var stack := s.stack[..|s.stack| - 1] + Pushes(img, w, h, p, oldVal, 4);
            Closed(img0, w, h, oldVal, done + {p}, stack) && StartQueued(img0, w, h, oldVal, start, done + {p}, stack)
  {
    var p := s.stack[|s.stack| - 1];
    var rest := s.stack[..|s.stack| - 1];
    var stack := rest + Pushes(img, w, h, p, oldVal, 4);
    assert s.stack == rest + [p];
    forall p2, q | p2 in done + {p} && Adjacent(p2, q) && PushBounds(w, h, q) && Red(img0, w, h, q) <= oldVal
                   && q !in done + {p}
      ensures q in stack
    {
      if p2 == p {
        PaintedRed(img0, img, w, h, c, done + {p}, q);
        PushesAreDarkNeighbours(img, w, h, p, oldVal, q);
      } else {
        assert q in s.stack;
      }
    }
  }

  /** A popped point that is painted keeps the invariant, with `done` grown by that point. */
  lemma PaintKeeps(img0: seq<byte>, w: nat, h: nat, c: Colour, oldVal: int, start: Point,
                   s: FloodState, done: set<Point>)
    requires |img0| == w * h * 4 && |s.img| == w * h * 4 && s.stack != [] && c.r > oldVal
    requires FillInv(img0, w, h, c, oldVal, start, s, done)
    requires var p := s.stack[|s.stack| - 1]; InBounds(w, h, p) && Red(s.img, w, h, p) <= oldVal
    ensures var p := s.stack[|s.stack| - 1];
            p !in done && p in AllPixels(w, h)
            && FillInv(img0, w, h, c, oldVal, start, FloodStep(s, w, h, c, oldVal), done + {p})
  {
    var p := s.stack[|s.stack| - 1];
    var rest := s.stack[..|s.stack| - 1];
    PaintedRed(img0, s.img, w, h, c, done, p);
    assert p !in done;
    assert p == Point(p.x, p.y);
    if p == start {
      ReachStart(img0, w, h, oldVal, start);
    }
    var img := Paint(s.img, w, h, p, c);
    PaintedExtend(img0, s.img, w, h, c, done, p);
    PushedInRegion(img0, w, h, c, oldVal, start, img, done + {p}, p, rest);
    FrontierKept(img0, w, h, c, oldVal, start, s, done, img);
  }

  /** Removing a member of `a - d` from consideration shrinks it. */
  lemma FewerLeft(a: set<Point>, d: set<Point>, p: Point)
    requires p in a && p !in d
    ensures |a - (d + {p})| < |a - d|
  {
    assert a - d == (a - (d + {p})) + {p};
  }

  /** With the work list empty, the painted pixels are exactly the region. */
  lemma {:induction false} PathPainted(img0: seq<byte>, w: nat, h: nat, c: Colour, oldVal: int, start: Point,
                                       img: seq<byte>, done: set<Point>, path: seq<Point>)
    requires |img0| == w * h * 4 && |img| == w * h * 4
    requires FillInv(img0, w, h, c, oldVal, start, FloodState(img, []), done)
    requires IsFillPath(img0, w, h, oldVal, path) && path[0] == start
    ensures path[|path| - 1] in done
    decreases |path|
  {
    if |path| > 1 {
      var prefix := path[..|path| - 1];
      assert IsFillPath(img0, w, h, oldVal, prefix);
      PathPainted(img0, w, h, c, oldVal, start, img, done, prefix);
      assert Adjacent(path[|path| - 2], path[|path| - 1]);
    }
  }

  /**
    One iteration of the fill's loop, whatever its outcome, keeps the
    invariant; and it paints a new pixel or shortens the work list.
   */
  lemma StepKeeps(img0: seq<byte>, w: nat, h: nat, c: Colour, oldVal: int, start: Point,
                  s: FloodState, done: set<Point>) returns (done': set<Point>)
    requires |img0| == w * h * 4 && |s.img| == w * h * 4 && s.stack != [] && c.r > oldVal
    requires FillInv(img0, w, h, c, oldVal, start, s, done)
    ensures FillInv(img0, w, h, c, oldVal, start, FloodStep(s, w, h, c, oldVal), done')
    ensures || |AllPixels(w, h) - done'| < |AllPixels(w, h) - done|
            || (done' == done && |FloodStep(s, w, h, c, oldVal).stack| < |s.stack|)
  {
    var p := s.stack[|s.stack| - 1];
    if !InBounds(w, h, p) || Red(s.img, w, h, p) > oldVal {
      SkipKeeps(img0, w, h, c, oldVal, start, s, done);
      done' := done;
    } else {
      PaintKeeps(img0, w, h, c, oldVal, start, s, done);
      FewerLeft(AllPixels(w, h), done, p);
      done' := done + {p};
    }
  }

  /** The body of `flood`'s `while (top > 0)` loop, acting on the image in place. */
  method FloodIteration(img: array<byte>, w: nat, h: nat, c: Colour, oldVal: int, stack0: seq<Point>)
    returns (stack: seq<Point>)
    requires img.Length == w * h * 4 && stack0 != []
    modifies img
    ensures FloodState(img[..], stack) == FloodStep(FloodState(old(img[..]), stack0), w, h, c, oldVal)
  {
    var p := stack0[|stack0| - 1];
    stack := stack0[..|stack0| - 1];
    if InBounds(w, h, p) {
      var idx := Offset(w, h, p);
      if img[idx] <= oldVal {
        img[idx] := c.r;
        img[idx + 1] := c.g;
        img[idx + 2] := c.b;
        stack := PushNeighbours(img, w, h, p, oldVal, stack);
      }
    }
  }

  /**
    The image `flood` leaves: byte `i` belongs to pixel `(i / 4 % w, i / 4 / w)`;
    its colour bytes take `c` when that pixel is reached from `start`, and every
    other byte keeps its value in `img0`.
   */
  ghost function Flooded(img0: seq<byte>, w: nat, h: nat, start: Point, c: Colour, oldVal: int): (r: seq<byte>)
    requires |img0| == w * h * 4
    ensures |r| == |img0|
  {
    seq(|img0|, i requires 0 <= i < |img0| => FloodedByte(img0, w, h, start, c, oldVal, i))
  }

  ghost function FloodedByte(img0: seq<byte>, w: nat, h: nat, start: Point, c: Colour, oldVal: int, i: nat): byte
    requires |img0| == w * h * 4 && i < |img0|
  {
    PointOfIndex(w, h, i / 4);
    var q := Point(i / 4 % w, i / 4 / w);
    if i % 4 < 3 && Reach(img0, w, h, oldVal, start, q) then
      (if i % 4 == 0 then c.r else if i % 4 == 1 then c.g else c.b)
    else img0[i]
  }

  /** An image whose every pixel has the fill's outcome is exactly `Flooded`. */
  lemma OutcomeIsFlooded(img0: seq<byte>, img: seq<byte>, w: nat, h: nat, start: Point, c: Colour, oldVal: int)
    requires |img0| == w * h * 4 && |img| == w * h * 4
    requires forall q :: InBounds(w, h, q) ==>
               PixelOutcome(img0, img, w, h, q, c, Reach(img0, w, h, oldVal, start, q))
    ensures img == Flooded(img0, w, h, start, c, oldVal)
  {
    var f := Flooded(img0, w, h, start, c, oldVal);
    forall i | 0 <= i < |img|
      ensures img[i] == f[i]
    {
      PointOfIndex(w, h, i / 4);
      var q := Point(i / 4 % w, i / 4 / w);
      assert Offset(w, h, q) + i % 4 == i;
      assert PixelOutcome(img0, img, w, h, q, c, Reach(img0, w, h, oldVal, start, q));
    }
  }

  /**
    `flood`: fills from `start`, painting with `c` every pixel of the region
    (the pixels reachable from `start` through dark pixels, the later ones
    inside the push bounds) and leaving every other pixel untouched.  The
    fill ends because painted pixels are no longer dark: `c.r > oldVal`.
   */
  method Flood(img: array<byte>, w: nat, h: nat, start: Point, c: Colour, oldVal: int)
    requires img.Length == w * h * 4 && c.r > oldVal
    modifies img
    ensures forall q :: InBounds(w, h, q) ==>
              PixelOutcome(old(img[..]), img[..], w, h, q, c, Reach(old(img[..]), w, h, oldVal, start, q))
    ensures img[..] == Flooded(old(img[..]), w, h, start, c, oldVal)
  {
    ghost var img0 := img[..];
    ghost var done: set<Point> := {};
    var stack := [start];
    while stack != []
      invariant img.Length == w * h * 4
      invariant FillInv(img0, w, h, c, oldVal, start, FloodState(img[..], stack), done)
      decreases |AllPixels(w, h) - done|, |stack|
    {
      ghost var s := FloodState(img[..], stack);
      stack := FloodIteration(img, w, h, c, oldVal, stack);
      done := StepKeeps(img0, w, h, c, oldVal, start, s, done);
    }
    forall q | InBounds(w, h, q)
      ensures PixelOutcome(img0, img[..], w, h, q, c, Reach(img0, w, h, oldVal, start, q))
    {
      if Reach(img0, w, h, oldVal, start, q) {
        var path :| IsFillPath(img0, w, h, oldVal, path) && path[0] == start && path[|path| - 1] == q;
        PathPainted(img0, w, h, c, oldVal, start, img[..], done, path);
      }
      assert PixelOutcome(img0, img[..], w, h, q, c, q in done);
    }
    OutcomeIsFlooded(img0, img[..], w, h, start, c, oldVal);
  }

  /** Every pixel the fill paints was dark before the fill. */
  lemma FloodPaintsDarkOnly(img0: seq<byte>, img: seq<byte>, w: nat, h: nat, start: Point, c: Colour, oldVal: int, q: Point)
    requires |img0| == w * h * 4 && |img| == w * h * 4 && InBounds(w, h, q)
    requires PixelOutcome(img0, img, w, h, q, c, Reach(img0, w, h, oldVal, start, q))
    ensures Reach(img0, w, h, oldVal, start, q) ==> Red(img0, w, h, q) <= oldVal && Red(img, w, h, q) == c.r
    ensures !Reach(img0, w, h, oldVal, start, q) ==> Unchanged(img0, img, w, h, q)
  {
    if Reach(img0, w, h, oldVal, start, q) {
      ReachIsDark(img0, w, h, oldVal, start, q);
    }
  }

  /** All four bytes of pixel `q` are as in `img0`. */
  predicate Unchanged(img0: seq<byte>, img: seq<byte>, w: nat, h: nat, q: Point)
    requires |img0| == w * h * 4 && |img| == w * h * 4 && InBounds(w, h, q)
  {
    var o := Offset(w, h, q);
    img[o] == img0[o] && img[o + 1] == img0[o + 1] && img[o + 2] == img0[o + 2] && img[o + 3] == img0[o + 3]
  }

  /**
    What colouring may do to a pixel: leave it, or, when its red byte was at
    most `eps`, repaint its colour bytes with a red above `eps`, keeping alpha.
   */
  ghost predicate Recoloured(img0: seq<byte>, img: seq<byte>, w: nat, h: nat, eps: int)
    requires |img0| == w * h * 4 && |img| == w * h * 4
  {
    forall q :: InBounds(w, h, q) ==>
      || Unchanged(img0, img, w, h, q)
      || (Red(img0, w, h, q) <= eps && eps < Red(img, w, h, q) && img[Offset(w, h, q) + 3] == img0[Offset(w, h, q) + 3])
  }

  /** Recolouring twice is recolouring once. */
  lemma RecolouredTrans(img0: seq<byte>, img1: seq<byte>, img2: seq<byte>, w: nat, h: nat, eps: int)
    requires |img0| == w * h * 4 && |img1| == w * h * 4 && |img2| == w * h * 4
    requires Recoloured(img0, img1, w, h, eps) && Recoloured(img1, img2, w, h, eps)
    ensures Recoloured(img0, img2, w, h, eps)
  {
    forall q | InBounds(w, h, q)
      ensures || Unchanged(img0, img2, w, h, q)
              || (Red(img0, w, h, q) <= eps && eps < Red(img2, w, h, q)
                  && img2[Offset(w, h, q) + 3] == img0[Offset(w, h, q) + 3])
    {
      assert Unchanged(img0, img1, w, h, q)
        || (Red(img0, w, h, q) <= eps && eps < Red(img1, w, h, q) && img1[Offset(w, h, q) + 3] == img0[Offset(w, h, q) + 3]);
      assert Unchanged(img1, img2, w, h, q)
        || (Red(img1, w, h, q) <= eps && eps < Red(img2, w, h, q) && img2[Offset(w, h, q) + 3] == img1[Offset(w, h, q) + 3]);
    }
  }

  /** Recolouring never lowers a red byte. */
  lemma RecolouredRedGrows(img0: seq<byte>, img: seq<byte>, w: nat, h: nat, eps: int, q: Point)
    requires |img0| == w * h * 4 && |img| == w * h * 4 && InBounds(w, h, q)
    requires Recoloured(img0, img, w, h, eps)
    ensures Red(img0, w, h, q) <= Red(img, w, h, q)
  {
    assert Unchanged(img0, img, w, h, q)
      || (Red(img0, w, h, q) <= eps && eps < Red(img, w, h, q));
  }

  /** No interior pixel is below `eps`: `color_components` finds no seed. */
  ghost predicate NoSeed(img: seq<byte>, w: nat, h: nat, eps: int)
    requires |img| == w * h * 4
  {
    forall q :: Interior(w, h, q) ==> Red(img, w, h, q) >= eps
  }

  /** The interior pixels before `(x, y)` in row-major order are no longer below `eps`. */
  ghost predicate LitBefore(img: seq<byte>, w: nat, h: nat, eps: int, x: int, y: int)
    requires |img| == w * h * 4
  {
    forall q :: Interior(w, h, q) && (q.y < y || (q.y == y && q.x < x)) ==> Red(img, w, h, q) >= eps
  }

  /**
    What `color_components` does from interior position `(x, y)` on, with `k`
    colours drawn so far: visiting the interior in row-major order, every pixel
    whose red byte is below `eps` when it is visited seeds a flood with
    threshold `eps` and the next drawn colour; other pixels are passed over.
   */
  ghost function Scan(img: seq<byte>, w: nat, h: nat, eps: int, draw: nat -> Colour, k: nat, x: int, y: int): seq<byte>
    requires |img| == w * h * 4 && 1 <= x && 1 <= y
    decreases h - y, w - x
  {
    if y >= h - 1 then img
    else if x >= w - 1 then Scan(img, w, h, eps, draw, k, 1, y + 1)
    else if Red(img, w, h, Point(x, y)) < eps then
      Scan(Flooded(img, w, h, Point(x, y), draw(k), eps), w, h, eps, draw, k + 1, x + 1, y)
    else Scan(img, w, h, eps, draw, k, x + 1, y)
  }

  /** Visiting interior pixel `(x, y)` turns the rest of the scan into the scan from the next pixel. */
  lemma ScanVisit(img: seq<byte>, img': seq<byte>, w: nat, h: nat, eps: int, draw: nat -> Colour, k: nat, k': nat, x: int, y: int)
    requires |img| == w * h * 4 && 1 <= x < w - 1 && 1 <= y < h - 1
    requires Red(img, w, h, Point(x, y)) < eps ==> k' == k + 1 && img' == Flooded(img, w, h, Point(x, y), draw(k), eps)
    requires Red(img, w, h, Point(x, y)) >= eps ==> k' == k && img' == img
    ensures |img'| == w * h * 4
    ensures Scan(img, w, h, eps, draw, k, x, y) == Scan(img', w, h, eps, draw, k', x + 1, y)
  {
  }

  /** At the end of an interior row the scan moves on to the next row. */
  lemma ScanNextRow(img: seq<byte>, w: nat, h: nat, eps: int, draw: nat -> Colour, k: nat, x: int, y: int)
    requires |img| == w * h * 4 && 1 <= x && w - 1 <= x && 1 <= y < h - 1
    ensures Scan(img, w, h, eps, draw, k, x, y) == Scan(img, w, h, eps, draw, k, 1, y + 1)
  {
  }

  /**
    One iteration of `color_components`' loops at interior pixel `p`: when
    its red byte is below `eps` it is flooded with the next drawn colour.
    `draws` counts the colours drawn so far.
   */
  method ColorPixel(img: array<byte>, w: nat, h: nat, eps: int, draw: nat -> Colour, draws: nat, p: Point)
    returns (draws': nat)
    requires img.Length == w * h * 4 && Interior(w, h, p) && forall k :: draw(k).r > eps
    modifies img
    ensures Recoloured(old(img[..]), img[..], w, h, eps)
    ensures Red(img[..], w, h, p) >= eps
    ensures Red(old(img[..]), w, h, p) < eps ==>
              draws' == draws + 1 && img[..] == Flooded(old(img[..]), w, h, p, draw(draws), eps)
    ensures Red(old(img[..]), w, h, p) >= eps ==> draws' == draws && img[..] == old(img[..])
  {
    draws' := draws;
    var idx := Offset(w, h, p);
    if img[idx] < eps {
      ghost var before := img[..];
      var c := draw(draws);
      Flood(img, w, h, p, c, eps);
      draws' := draws + 1;
      ReachStart(before, w, h, eps, p);
      forall q | InBounds(w, h, q)
        ensures || Unchanged(before, img[..], w, h, q)
                || (Red(before, w, h, q) <= eps && eps < Red(img[..], w, h, q)
                    && img[Offset(w, h, q) + 3] == before[Offset(w, h, q) + 3])
      {
        FloodPaintsDarkOnly(before, img[..], w, h, p, c, eps, q);
      }
      FloodPaintsDarkOnly(before, img[..], w, h, p, c, eps, p);
    }
  }

  /** The `x` loop of `color_components` over interior row `y`. */
  method ColorRow(img: array<byte>, w: nat, h: nat, eps: int, draw: nat -> Colour, draws0: nat, y: int)
    returns (draws: nat)
    requires img.Length == w * h * 4 && 1 <= y < h - 1 && forall k :: draw(k).r > eps
    requires LitBefore(img[..], w, h, eps, 1, y)
    modifies img
    ensures Recoloured(old(img[..]), img[..], w, h, eps)
    ensures LitBefore(img[..], w, h, eps, 1, y + 1)
    ensures draws0 <= draws
    ensures NoSeed(old(img[..]), w, h, eps) ==> img[..] == old(img[..])
    ensures Scan(old(img[..]), w, h, eps, draw, draws0, 1, y) == Scan(img[..], w, h, eps, draw, draws, 1, y + 1)
  {
    ghost var img0 := img[..];
    draws := draws0;
    var x := 1;
    while x < w - 1
      invariant 1 <= x && (x <= w - 1 || w < 2)
      invariant Recoloured(img0, img[..], w, h, eps)
      invariant LitBefore(img[..], w, h, eps, x, y)
      invariant draws0 <= draws
      invariant NoSeed(img0, w, h, eps) ==> img[..] == img0
      invariant Scan(img0, w, h, eps, draw, draws0, 1, y) == Scan(img[..], w, h, eps, draw, draws, x, y)
    {
      ghost var before := img[..];
      ghost var k := draws;
      draws := ColorPixel(img, w, h, eps, draw, draws, Point(x, y));
      ScanVisit(before, img[..], w, h, eps, draw, k, draws, x, y);
      RecolouredTrans(img0, before, img[..], w, h, eps);
      forall q | Interior(w, h, q) && (q.y < y || (q.y == y && q.x < x + 1))
        ensures Red(img[..], w, h, q) >= eps
      {
        if q != Point(x, y) {
          RecolouredRedGrows(before, img[..], w, h, eps, q);
        }
      }
      x := x + 1;
    }
    ScanNextRow(img[..], w, h, eps, draw, draws, x, y);
  }

  /**
    `color_components`: scans the interior in row-major order and floods from
    every pixel still below `eps`, the `k`-th flood painting with colour
    `draw(k)`.  Afterwards no interior pixel is below `eps`, and every pixel
    is either untouched or was at most `eps` and now has a red above `eps`;
    on an image without seeds it changes nothing, so a second run is a no-op.
   */
  method ColorComponents(img: array<byte>, w: nat, h: nat, eps: int, draw: nat -> Colour)
    requires img.Length == w * h * 4 && forall k :: draw(k).r > eps
    modifies img
    ensures Recoloured(old(img[..]), img[..], w, h, eps)
    ensures NoSeed(img[..], w, h, eps)
    ensures NoSeed(old(img[..]), w, h, eps) ==> img[..] == old(img[..])
    ensures img[..] == Scan(old(img[..]), w, h, eps, draw, 0, 1, 1)
  {
    ghost var img0 := img[..];
    var draws := 0;
    var y := 1;
    while y < h - 1
      invariant 1 <= y && (y <= h - 1 || h < 2)
      invariant Recoloured(img0, img[..], w, h, eps)
      invariant LitBefore(img[..], w, h, eps, 1, y)
      invariant NoSeed(img0, w, h, eps) ==> img[..] == img0
      invariant Scan(img0, w, h, eps, draw, 0, 1, 1) == Scan(img[..], w, h, eps, draw, draws, 1, y)
    {
      ghost var before := img[..];
      draws := ColorRow(img, w, h, eps, draw, draws, y);
      RecolouredTrans(img0, before, img[..], w, h, eps);
      y := y + 1;
    }
  }

  /** Pixel `p` of the 3 by 3 image `img` has red, green and blue all zero. */
  predicate BlackAt(img: seq<byte>, p: Point)
    requires |img| == 36 && InBounds(3, 3, p)
  {
    var o := Offset(3, 3, p);
    img[o] == 0 && img[o + 1] == 0 && img[o + 2] == 0
  }

  /** `img` is a 3 by 3 image whose colour bytes are all zero. */
  ghost predicate AllBlack(img: seq<byte>) {
    |img| == 36 && forall p :: InBounds(3, 3, p) ==> BlackAt(img, p)
  }

  const NoColour := Colour(0, 0, 0)

  lemma PaintBlackIsBlack(img: seq<byte>, p: Point)
    requires AllBlack(img) && InBounds(3, 3, p)
    ensures Paint(img, 3, 3, p, NoColour) == img
  {
    assert BlackAt(img, p);
  }

  /** Popping an in-bounds pixel of the black image repaints it black and pushes its pushable neighbours. */
  lemma BlackStep(img: seq<byte>, rest: seq<Point>, p: Point)
    requires AllBlack(img) && InBounds(3, 3, p)
    ensures FloodStep(FloodState(img, rest + [p]), 3, 3, NoColour, 28)
            == FloodState(img, rest + Pushes(img, 3, 3, p, 28, 4))
  {
    var st := rest + [p];
    assert st[|st| - 1] == p && st[..|st| - 1] == rest;
    PaintBlackIsBlack(img, p);
  }

  lemma PushesAt21(img: seq<byte>)
    requires AllBlack(img)
    ensures Pushes(img, 3, 3, Point(2, 1), 28, 4) == [Point(2, 2), Point(1, 1)]
  {
    PushesUnfold(img, 3, 3, Point(2, 1), 28);
    assert BlackAt(img, Point(2, 2)) && BlackAt(img, Point(1, 1));
  }

  lemma PushesAt11(img: seq<byte>)
    requires AllBlack(img)
    ensures Pushes(img, 3, 3, Point(1, 1), 28, 4) == [Point(1, 2), Point(2, 1)]
  {
    PushesUnfold(img, 3, 3, Point(1, 1), 28);
    assert BlackAt(img, Point(1, 2)) && BlackAt(img, Point(2, 1));
  }

  /**
    The states the fill cycles through on the black image: the image is
    unchanged and the work list ends in `(1, 2), (2, 1)` or in
    `(1, 2), (2, 2), (1, 1)`.
   */
  ghost predicate Cyc(img: seq<byte>, s: FloodState) {
    var st, n := s.stack, |s.stack|;
    s.img == img && n >= 2 &&
    ((st[n - 2] == Point(1, 2) && st[n - 1] == Point(2, 1))
     || (n >= 3 && st[n - 3] == Point(1, 2) && st[n - 2] == Point(2, 2) && st[n - 1] == Point(1, 1)))
  }

  /**
    One iteration from a cycling state leads to a cycling state with one more
    entry: popping (2, 1) pushes (2, 2) and (1, 1); popping (1, 1) pushes
    (1, 2) and (2, 1) again.
   */
  lemma CycleStep(img: seq<byte>, s: FloodState)
    requires AllBlack(img) && Cyc(img, s)
    ensures Cyc(img, FloodStep(s, 3, 3, NoColour, 28))
    ensures |FloodStep(s, 3, 3, NoColour, 28).stack| == |s.stack| + 1
  {
    var rest, p := s.stack[..|s.stack| - 1], s.stack[|s.stack| - 1];
    assert s.stack == rest + [p];
    BlackStep(img, rest, p);
    if p == Point(2, 1) {
      PushesAt21(img);
    } else {
      PushesAt11(img);
    }
  }

  /** From a cycling state the work list gains one entry per iteration and never empties. */
  lemma {:induction false} CycleGrows(img: seq<byte>, s: FloodState, n: nat)
    requires AllBlack(img) && Cyc(img, s)
    ensures |Run(s, 3, 3, NoColour, 28, n).stack| == |s.stack| + n
    decreases n
  {
    if n > 0 {
      CycleStep(img, s);
      CycleGrows(img, FloodStep(s, 3, 3, NoColour, 28), n - 1);
    }
  }

  /**
    `flood` as written, started at (1, 1) of an all-black 3 by 3 image with
    threshold 28 and the drawn colour (0, 0, 0), as `color_components` does
    when `rand() % 256` yields 0 three times: after `n + 1` iterations the
    work list holds `n + 2` points, so the loop never ends, and from the
    ninth iteration on it holds more than the `w * h` = 9 points `flood`
    allocates.
   */
  lemma FloodNeverEnds(img: seq<byte>, n: nat)
    requires AllBlack(img)
    ensures |Run(FloodState(img, [Point(1, 1)]), 3, 3, NoColour, 28, n + 1).stack| == n + 2
  {
    var p11 := Point(1, 1);
    PaintBlackIsBlack(img, p11);
    PushesUnfold(img, 3, 3, p11, 28);
    assert BlackAt(img, p11) && BlackAt(img, Point(2, 1)) && BlackAt(img, Point(1, 2));
    var first := FloodStep(FloodState(img, [p11]), 3, 3, NoColour, 28);
    assert first == FloodState(img, [Point(1, 2), Point(2, 1)]);
    CycleGrows(img, first, n);
  }
}
