/**
  The pixel grid graph (`create_graph`): one node per pixel, in row-major order,
  holding the pixel's four bytes, links to its four grid neighbours and the
  disjoint-set fields.  The C nodes point at each other; here a node names its
  neighbours and its parent by their index in the node array.
 */
module PixelGraph {
  import opened Wrappers
  import opened Raster

  /**
    A node of the grid.  `alpha` is the fourth pixel byte (the C field `w`);
    `up`, `down`, `lt`, `rt` are the neighbour links (`None` for NULL); `p` is
    the disjoint-set parent and `rank` its union-by-rank bound.
   */
  datatype Node = Node(r: byte, g: byte, b: byte, alpha: byte,
                       up: Option<nat>, down: Option<nat>, lt: Option<nat>, rt: Option<nat>,
                       p: nat, rank: nat)

  /** The four links, in the order `find_components` follows them. */
  function Links(n: Node): seq<Option<nat>> {
    [n.up, n.down, n.lt, n.rt]
  }

  /** What a node holds apart from its disjoint-set fields: these never change after creation. */
  function Features(n: Node): Node {
    n.(p := 0, rank := 0)
  }

  /** The node `create_graph` builds for pixel `p`. */
  function NodeAt(img: seq<byte>, w: nat, h: nat, p: Point): Node
    requires |img| == w * h * 4 && InBounds(w, h, p)
  {
    var o := Offset(w, h, p);
    Node(img[o], img[o + 1], img[o + 2], img[o + 3],
         if p.y > 0 then Some(Index(w, h, Point(p.x, p.y - 1))) else None,
         if p.y < h - 1 then Some(Index(w, h, Point(p.x, p.y + 1))) else None,
         if p.x > 0 then Some(Index(w, h, Point(p.x - 1, p.y))) else None,
         if p.x < w - 1 then Some(Index(w, h, Point(p.x + 1, p.y))) else None,
         Index(w, h, p), 0)
  }

  /** The grid `create_graph` returns: node `Index(p)` is `NodeAt(p)`. */
  ghost predicate IsInitialGraph(img: seq<byte>, w: nat, h: nat, g: seq<Node>)
    requires |img| == w * h * 4
  {
    && |g| == w * h
    && forall p {:trigger g[Index(w, h, p)]} :: InBounds(w, h, p) ==> g[Index(w, h, p)] == NodeAt(img, w, h, p)
  }

  /** Every link of every node names a node of `g`. */
  predicate LinksInRange(g: seq<Node>) {
    forall i, k :: 0 <= i < |g| && 0 <= k < 4 && Links(g[i])[k].Some? ==> Links(g[i])[k].value < |g|
  }

  /** One iteration of `create_graph`'s loops: fills node `Index(p)`. */
  method FillNode(img: array<byte>, grid: array<Node>, w: nat, h: nat, p: Point)
    requires img.Length == w * h * 4 && grid.Length == w * h && InBounds(w, h, p)
    modifies grid
    ensures grid[Index(w, h, p)] == NodeAt(img[..], w, h, p)
    ensures forall i :: 0 <= i < grid.Length && i != Index(w, h, p) ==> grid[i] == old(grid[i])
  {
    var i := Index(w, h, p);
    var px := Offset(w, h, p);
    var up := if p.y > 0 then Some(Index(w, h, Point(p.x, p.y - 1))) else None;
    var down := if p.y < h - 1 then Some(Index(w, h, Point(p.x, p.y + 1))) else None;
    var lt := if p.x > 0 then Some(Index(w, h, Point(p.x - 1, p.y))) else None;
    var rt := if p.x < w - 1 then Some(Index(w, h, Point(p.x + 1, p.y))) else None;
    grid[i] := Node(img[px], img[px + 1], img[px + 2], img[px + 3], up, down, lt, rt, i, 0);
  }

  /**
    Building node `p` while changing no other node extends the built
    row-major prefix of the grid by `p`.
   */
  lemma BuiltExtend(img: seq<byte>, before: seq<Node>, after: seq<Node>, w: nat, h: nat, p: Point)
    requires |img| == w * h * 4 && |before| == w * h && |after| == w * h && InBounds(w, h, p)
    requires forall i :: 0 <= i < |after| && i != Index(w, h, p) ==> after[i] == before[i]
    requires after[Index(w, h, p)] == NodeAt(img, w, h, p)
    requires forall q :: InBounds(w, h, q) && (q.y < p.y || (q.y == p.y && q.x < p.x)) ==>
               before[Index(w, h, q)] == NodeAt(img, w, h, q)
    ensures forall q :: InBounds(w, h, q) && (q.y < p.y || (q.y == p.y && q.x < p.x + 1)) ==>
              after[Index(w, h, q)] == NodeAt(img, w, h, q)
  {
    forall q | InBounds(w, h, q) && (q.y < p.y || (q.y == p.y && q.x < p.x + 1))
      ensures after[Index(w, h, q)] == NodeAt(img, w, h, q)
    {
      if q != p {
        RowMajorOrder(w, q.x, q.y, p.x, p.y);
      }
    }
  }

  /** The `x` loop of `create_graph` for row `y`. */
  method FillRow(img: array<byte>, grid: array<Node>, w: nat, h: nat, y: nat)
    requires img.Length == w * h * 4 && grid.Length == w * h && y < h
    requires forall q :: InBounds(w, h, q) && (q.y < y || (q.y == y && q.x < 0)) ==>
               grid[Index(w, h, q)] == NodeAt(img[..], w, h, q)
    modifies grid
    ensures forall q :: InBounds(w, h, q) && (q.y < y + 1 || (q.y == y + 1 && q.x < 0)) ==>
              grid[Index(w, h, q)] == NodeAt(img[..], w, h, q)
  {
    var x := 0;
    while x < w
      invariant 0 <= x <= w
      invariant forall q :: InBounds(w, h, q) && (q.y < y || (q.y == y && q.x < x)) ==>
                  grid[Index(w, h, q)] == NodeAt(img[..], w, h, q)
    {
      ghost var before := grid[..];
      FillNode(img, grid, w, h, Point(x, y));
      BuiltExtend(img[..], before, grid[..], w, h, Point(x, y));
      x := x + 1;
    }
  }

  /** `create_graph`: a fresh grid whose node `y * w + x` describes pixel `(x, y)`. */
  method CreateGraph(img: array<byte>, w: nat, h: nat) returns (grid: array<Node>)
    requires img.Length == w * h * 4
    ensures fresh(grid)
    ensures IsInitialGraph(img[..], w, h, grid[..])
  {
    grid := new Node[w * h];
    var y := 0;
    while y < h
      invariant 0 <= y <= h
      invariant forall q :: InBounds(w, h, q) && (q.y < y || (q.y == y && q.x < 0)) ==>
                  grid[Index(w, h, q)] == NodeAt(img[..], w, h, q)
    {
      FillRow(img, grid, w, h, y);
      y := y + 1;
    }
  }

  /** Every node `create_graph` builds is its own parent with rank 0: a forest of singletons. */
  lemma InitialNodesAreRoots(img: seq<byte>, w: nat, h: nat, g: seq<Node>, i: nat)
    requires |img| == w * h * 4 && IsInitialGraph(img, w, h, g) && i < |g|
    ensures g[i].p == i && g[i].rank == 0
  {
    PointOfIndex(w, h, i);
  }

  /**
    The links of the initial graph: node `i` links to node `j` exactly when `j`
    is a grid neighbour of `i`, and the link names `j` from the matching side.
   */
  lemma InitialLinksAreNeighbours(img: seq<byte>, w: nat, h: nat, g: seq<Node>, p: Point, k: nat)
    requires |img| == w * h * 4 && IsInitialGraph(img, w, h, g) && InBounds(w, h, p) && k < 4
    requires Links(g[Index(w, h, p)])[k].Some?
    ensures var j := Links(g[Index(w, h, p)])[k].value;
            && j < |g| && InBounds(w, h, Point(j % w, j / w))
            && j == Index(w, h, Point(j % w, j / w)) && Adjacent(p, Point(j % w, j / w))
  {
    var n := g[Index(w, h, p)];
    assert n == NodeAt(img, w, h, p);
    var q: Point;
    if k == 0 {
      q := Point(p.x, p.y - 1);
      assert Links(n)[k] == n.up;
    } else if k == 1 {
      q := Point(p.x, p.y + 1);
      assert Links(n)[k] == n.down;
    } else if k == 2 {
      q := Point(p.x - 1, p.y);
      assert Links(n)[k] == n.lt;
    } else {
      q := Point(p.x + 1, p.y);
      assert Links(n)[k] == n.rt;
    }
    assert InBounds(w, h, q) && Links(n)[k].value == Index(w, h, q);
    SplitIndex(w, h, q);
  }

  /** Vertically adjacent pixels link to each other: `down` from the upper, `up` from the lower. */
  lemma VerticalLinkPair(img: seq<byte>, w: nat, h: nat, g: seq<Node>, p: Point)
    requires |img| == w * h * 4 && IsInitialGraph(img, w, h, g) && InBounds(w, h, p) && p.y + 1 < h
    ensures g[Index(w, h, p)].down == Some(Index(w, h, Point(p.x, p.y + 1)))
    ensures g[Index(w, h, Point(p.x, p.y + 1))].up == Some(Index(w, h, p))
  {
    var q := Point(p.x, p.y + 1);
    assert NodeAt(img, w, h, p).down == Some(Index(w, h, q));
    assert Point(q.x, q.y - 1) == p;
    assert NodeAt(img, w, h, q).up == Some(Index(w, h, p));
    assert g[Index(w, h, p)] == NodeAt(img, w, h, p);
    assert g[Index(w, h, q)] == NodeAt(img, w, h, q);
  }

  /** Horizontally adjacent pixels link to each other: `rt` from the left, `lt` from the right. */
  lemma HorizontalLinkPair(img: seq<byte>, w: nat, h: nat, g: seq<Node>, p: Point)
    requires |img| == w * h * 4 && IsInitialGraph(img, w, h, g) && InBounds(w, h, p) && p.x + 1 < w
    ensures g[Index(w, h, p)].rt == Some(Index(w, h, Point(p.x + 1, p.y)))
    ensures g[Index(w, h, Point(p.x + 1, p.y))].lt == Some(Index(w, h, p))
  {
    var q := Point(p.x + 1, p.y);
    assert NodeAt(img, w, h, p).rt == Some(Index(w, h, q));
    assert Point(q.x - 1, q.y) == p;
    assert NodeAt(img, w, h, q).lt == Some(Index(w, h, p));
    assert g[Index(w, h, p)] == NodeAt(img, w, h, p);
    assert g[Index(w, h, q)] == NodeAt(img, w, h, q);
  }

  /** The initial graph's links all stay inside the grid. */
  lemma InitialLinksInRange(img: seq<byte>, w: nat, h: nat, g: seq<Node>)
    requires |img| == w * h * 4 && IsInitialGraph(img, w, h, g)
    ensures LinksInRange(g)
  {
    forall i, k | 0 <= i < |g| && 0 <= k < 4 && Links(g[i])[k].Some?
      ensures Links(g[i])[k].value < |g|
    {
      PointOfIndex(w, h, i);
      InitialLinksAreNeighbours(img, w, h, g, Point(i % w, i / w), k);
    }
  }
}
