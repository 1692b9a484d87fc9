/**
  Connected components of the pixel graph (`find_components`): every node is
  united with each of its linked neighbours, so that in the end two nodes share
  a set exactly when a chain of mergeable links joins them.
 */
module Components {
  import opened Wrappers
  import opened Raster
  import opened PixelGraph
  import opened DisjointSet

  /** `j` is a link of `i` and the two nodes may be merged. */
  ghost predicate Edge(g: seq<Node>, eps: real, i: nat, j: nat) {
    i < |g| && j < |g| && Some(j) in Links(g[i]) && Mergeable(g[i], g[j], eps)
  }

  /** An edge in either direction. */
  ghost predicate Step(g: seq<Node>, eps: real, i: nat, j: nat) {
    Edge(g, eps, i, j) || Edge(g, eps, j, i)
  }

  /** A non-empty chain of nodes, each a step from the next. */
  ghost predicate IsPath(g: seq<Node>, eps: real, path: seq<nat>) {
    && |path| > 0
    && (forall k :: 0 <= k < |path| ==> path[k] < |g|)
    && (forall k :: 0 <= k < |path| - 1 ==> Step(g, eps, path[k], path[k + 1]))
  }

  /** Some chain of mergeable links joins `i` to `j`. */
  ghost predicate Connected(g: seq<Node>, eps: real, i: nat, j: nat) {
    exists path :: IsPath(g, eps, path) && path[0] == i && path[|path| - 1] == j
  }

  /** Every node is connected to the root of its set: sets never join unconnected nodes. */
  ghost predicate Sound(g: seq<Node>, eps: real, s: seq<Node>)
    requires Valid(s) && |s| == |g|
  {
    forall i :: 0 <= i < |s| ==> Connected(g, eps, i, Root(s, i))
  }

  /** Every edge of `g` from a node below `n` joins two nodes of one set. */
  ghost predicate CompleteBelow(g: seq<Node>, eps: real, s: seq<Node>, n: int)
    requires Valid(s) && |s| == |g|
  {
    forall i, j :: 0 <= i < n && Edge(g, eps, i, j) ==> SameSet(s, i, j)
  }

  /** `t` keeps every pair that `s` has in one set. */
  ghost predicate Coarser(s: seq<Node>, t: seq<Node>)
    requires Valid(s) && Valid(t) && |s| == |t|
  {
    forall i, j :: 0 <= i < |s| && 0 <= j < |s| && SameSet(s, i, j) ==> SameSet(t, i, j)
  }

  function Reverse(path: seq<nat>): (r: seq<nat>)
    ensures |r| == |path| && forall k :: 0 <= k < |path| ==> r[k] == path[|path| - 1 - k]
  {
    if path == [] then [] else Reverse(path[1..]) + [path[0]]
  }

  lemma ConnectedRefl(g: seq<Node>, eps: real, i: nat)
    requires i < |g|
    ensures Connected(g, eps, i, i)
  {
    assert IsPath(g, eps, [i]);
  }

  lemma ConnectedByStep(g: seq<Node>, eps: real, i: nat, j: nat)
    requires Step(g, eps, i, j)
    ensures Connected(g, eps, i, j)
  {
    assert IsPath(g, eps, [i, j]);
  }

  /** Connection is symmetric: a chain read backwards. */
  lemma ConnectedSym(g: seq<Node>, eps: real, i: nat, j: nat)
    requires Connected(g, eps, i, j)
    ensures Connected(g, eps, j, i)
  {
    var path :| IsPath(g, eps, path) && path[0] == i && path[|path| - 1] == j;
    var r := Reverse(path);
    forall k | 0 <= k < |r| - 1
      ensures Step(g, eps, r[k], r[k + 1])
    {
      var m := |path| - 2 - k;
      assert r[k] == path[m + 1] && r[k + 1] == path[m];
      assert Step(g, eps, path[m], path[m + 1]);
    }
    assert IsPath(g, eps, r);
  }

  /** Connection is transitive: two chains joined end to start. */
  lemma ConnectedTrans(g: seq<Node>, eps: real, i: nat, j: nat, k: nat)
    requires Connected(g, eps, i, j) && Connected(g, eps, j, k)
    ensures Connected(g, eps, i, k)
  {
    var p1 :| IsPath(g, eps, p1) && p1[0] == i && p1[|p1| - 1] == j;
    var p2 :| IsPath(g, eps, p2) && p2[0] == j && p2[|p2| - 1] == k;
    var p := p1 + p2[1..];
    forall m | 0 <= m < |p| - 1
      ensures Step(g, eps, p[m], p[m + 1])
    {
      if m < |p1| - 1 {
        assert p[m] == p1[m] && p[m + 1] == p1[m + 1];
      } else {
        var n := m - |p1| + 1;
        assert p[m] == p2[n] && p[m + 1] == p2[n + 1];
      }
    }
    assert IsPath(g, eps, p);
  }

  /** Coarsening is transitive. */
  lemma CoarserTrans(s1: seq<Node>, s2: seq<Node>, s3: seq<Node>)
    requires Valid(s1) && Valid(s2) && Valid(s3) && |s1| == |s2| == |s3|
    requires Coarser(s1, s2) && Coarser(s2, s3)
    ensures Coarser(s1, s3)
  {
  }

  /** A union coarsens the partition. */
  lemma UnionCoarsens(s: seq<Node>, t: seq<Node>, a: nat, b: nat, eps: real)
    requires Valid(s) && Valid(t) && |s| == |t| && a < |s| && b < |s|
    requires UnionSpec(s, t, a, b, eps)
    ensures Coarser(s, t)
  {
    forall i, j | 0 <= i < |s| && 0 <= j < |s| && SameSet(s, i, j)
      ensures SameSet(t, i, j)
    {
      UnionExact(s, t, a, b, eps, i, j);
    }
  }

  /** A union along a link of `g` keeps every node connected to its root. */
  lemma UnionSound(g: seq<Node>, s: seq<Node>, t: seq<Node>, a: nat, b: nat, eps: real)
    requires Valid(s) && Valid(t) && |g| == |s| == |t| && a < |s| && b < |s|
    requires FeaturesKept(g, s) && Some(b) in Links(g[a])
    requires UnionSpec(s, t, a, b, eps) && Sound(g, eps, s)
    ensures Sound(g, eps, t)
  {
    var ra, rb := Root(s, a), Root(s, b);
    if Merges(s, a, b, eps) {
      MergeableByFeatures(s[a], s[b], g[a], g[b], eps);
      assert Edge(g, eps, a, b);
      ConnectedByStep(g, eps, a, b);
      assert Connected(g, eps, a, ra) && Connected(g, eps, b, rb);
      ConnectedSym(g, eps, a, ra);
      ConnectedSym(g, eps, b, rb);
      ConnectedTrans(g, eps, ra, a, b);
      ConnectedTrans(g, eps, ra, b, rb);
      ConnectedSym(g, eps, ra, rb);
      forall i | 0 <= i < |t|
        ensures Connected(g, eps, i, Root(t, i))
      {
        assert Connected(g, eps, i, Root(s, i));
        if Root(s, i) == ra && Winner(s, a, b) == rb {
          ConnectedTrans(g, eps, i, ra, rb);
        } else if Root(s, i) == rb && Winner(s, a, b) == ra {
          ConnectedTrans(g, eps, i, rb, ra);
        }
      }
    } else {
      forall i | 0 <= i < |t|
        ensures Connected(g, eps, i, Root(t, i))
      {
        assert Connected(g, eps, i, Root(s, i));
      }
    }
  }

  /**
    One `union_set(curr, link)` call of `find_components`, with what it
    contributes to the loop's invariants.
   */
  method UnionAlong(grid: array<Node>, ghost g: seq<Node>, a: nat, b: nat, eps: real)
    requires Valid(grid[..]) && |g| == grid.Length && FeaturesKept(g, grid[..])
    requires a < grid.Length && b < grid.Length && Some(b) in Links(g[a])
    modifies grid
    ensures Valid(grid[..]) && FeaturesKept(g, grid[..])
    ensures Coarser(old(grid[..]), grid[..])
    ensures Edge(g, eps, a, b) ==> SameSet(grid[..], a, b)
    ensures Sound(g, eps, old(grid[..])) ==> Sound(g, eps, grid[..])
  {
    ghost var s := grid[..];
    UnionSet(grid, a, b, eps);
    UnionCoarsens(s, grid[..], a, b, eps);
    if Edge(g, eps, a, b) {
      MergeableByFeatures(s[a], s[b], g[a], g[b], eps);
      UnionJoins(s, grid[..], a, b, eps);
    }
    if Sound(g, eps, s) {
      UnionSound(g, s, grid[..], a, b, eps);
    }
  }

  /** One guarded call of `find_components`: `union_set` along `link` when the node has that neighbour. */
  method UnionIfLinked(grid: array<Node>, ghost g: seq<Node>, a: nat, link: Option<nat>, eps: real)
    requires Valid(grid[..]) && |g| == grid.Length && FeaturesKept(g, grid[..]) && LinksInRange(g)
    requires a < grid.Length && link in Links(g[a])
    modifies grid
    ensures Valid(grid[..]) && FeaturesKept(g, grid[..])
    ensures Coarser(old(grid[..]), grid[..])
    ensures link.Some? && Edge(g, eps, a, link.value) ==> SameSet(grid[..], a, link.value)
    ensures Sound(g, eps, old(grid[..])) ==> Sound(g, eps, grid[..])
    ensures link.None? ==> grid[..] == old(grid[..])
  {
    if link.Some? {
      UnionAlong(grid, g, a, link.value, eps);
    }
  }

  /** The body of `find_components`' loops for node `i`: it is united with each linked neighbour in turn. */
  method UnionLinks(grid: array<Node>, ghost g: seq<Node>, i: nat, eps: real)
    requires Valid(grid[..]) && |g| == grid.Length && FeaturesKept(g, grid[..]) && LinksInRange(g)
    requires i < grid.Length
    modifies grid
    ensures Valid(grid[..]) && FeaturesKept(g, grid[..])
    ensures Coarser(old(grid[..]), grid[..])
    ensures forall j :: Edge(g, eps, i, j) ==> SameSet(grid[..], i, j)
    ensures Sound(g, eps, old(grid[..])) ==> Sound(g, eps, grid[..])
  {
    var n := grid[i];
    assert Features(n) == Features(g[i]);
    assert Links(n) == Links(g[i]);
    ghost var s0 := grid[..];
    UnionIfLinked(grid, g, i, n.up, eps);
    ghost var s1 := grid[..];
    UnionIfLinked(grid, g, i, n.down, eps);
    ghost var s2 := grid[..];
    UnionIfLinked(grid, g, i, n.lt, eps);
    ghost var s3 := grid[..];
    UnionIfLinked(grid, g, i, n.rt, eps);
    ghost var s4 := grid[..];
    CoarserTrans(s2, s3, s4);
    CoarserTrans(s1, s2, s4);
    CoarserTrans(s0, s1, s4);
    LinksJoined(g, eps, s1, s2, s3, s4, i);
  }

  /**
    After the four unions of node `i`, each made in its own state `s1` .. `s4`,
    every mergeable link of `i` joins its set.
   */
  lemma LinksJoined(g: seq<Node>, eps: real, s1: seq<Node>, s2: seq<Node>, s3: seq<Node>, s4: seq<Node>, i: nat)
    requires Valid(s1) && Valid(s2) && Valid(s3) && Valid(s4) && |g| == |s1| == |s2| == |s3| == |s4| && i < |g|
    requires Coarser(s1, s4) && Coarser(s2, s4) && Coarser(s3, s4)
    requires g[i].up.Some? && Edge(g, eps, i, g[i].up.value) ==> SameSet(s1, i, g[i].up.value)
    requires g[i].down.Some? && Edge(g, eps, i, g[i].down.value) ==> SameSet(s2, i, g[i].down.value)
    requires g[i].lt.Some? && Edge(g, eps, i, g[i].lt.value) ==> SameSet(s3, i, g[i].lt.value)
    requires g[i].rt.Some? && Edge(g, eps, i, g[i].rt.value) ==> SameSet(s4, i, g[i].rt.value)
    ensures forall j :: Edge(g, eps, i, j) ==> SameSet(s4, i, j)
  {
    forall j: nat | Edge(g, eps, i, j)
      ensures SameSet(s4, i, j)
    {
      if Some(j) == g[i].up {
        assert SameSet(s1, i, j);
      } else if Some(j) == g[i].down {
        assert SameSet(s2, i, j);
      } else if Some(j) == g[i].lt {
        assert SameSet(s3, i, j);
      }
    }
  }

  /** Handling node `n` extends completeness from the nodes below `n` to those below `n + 1`. */
  lemma CompleteExtend(g: seq<Node>, eps: real, s: seq<Node>, t: seq<Node>, n: nat)
    requires Valid(s) && Valid(t) && |g| == |s| == |t| && n < |g|
    requires CompleteBelow(g, eps, s, n) && Coarser(s, t)
    requires forall j :: Edge(g, eps, n, j) ==> SameSet(t, n, j)
    ensures CompleteBelow(g, eps, t, n + 1)
  {
    forall i, j | 0 <= i < n + 1 && Edge(g, eps, i, j)
      ensures SameSet(t, i, j)
    {
      if i < n {
        assert SameSet(s, i, j);
      }
    }
  }

  /** The `x` loop of `find_components` over row `y`. */
  method ComponentsRow(grid: array<Node>, ghost g: seq<Node>, w: nat, h: nat, y: nat, eps: real)
    requires grid.Length == w * h && |g| == grid.Length && y < h && LinksInRange(g)
    requires Valid(grid[..]) && FeaturesKept(g, grid[..])
    requires CompleteBelow(g, eps, grid[..], RowStart(w, y))
    modifies grid
    ensures Valid(grid[..]) && FeaturesKept(g, grid[..])
    ensures Coarser(old(grid[..]), grid[..])
    ensures CompleteBelow(g, eps, grid[..], RowStart(w, y) + w)
    ensures Sound(g, eps, old(grid[..])) ==> Sound(g, eps, grid[..])
  {
    ghost var s0 := grid[..];
    var x := 0;
    while x < w
      invariant 0 <= x <= w
      invariant Valid(grid[..]) && FeaturesKept(g, grid[..])
      invariant Coarser(s0, grid[..])
      invariant CompleteBelow(g, eps, grid[..], RowStart(w, y) + x)
      invariant Sound(g, eps, s0) ==> Sound(g, eps, grid[..])
    {
      var i := Index(w, h, Point(x, y));
      ghost var s := grid[..];
      UnionLinks(grid, g, i, eps);
      CoarserTrans(s0, s, grid[..]);
      CompleteExtend(g, eps, s, grid[..], i);
      x := x + 1;
    }
  }

  /**
    `find_components`: every node is united with its linked neighbours in
    row-major order.  Afterwards every mergeable link joins one set, no set
    is split, and a partition whose sets were connected stays so.
   */
  method FindComponents(grid: array<Node>, w: nat, h: nat, eps: real)
    requires grid.Length == w * h && Valid(grid[..]) && LinksInRange(grid[..])
    modifies grid
    ensures Valid(grid[..]) && FeaturesKept(old(grid[..]), grid[..])
    ensures Coarser(old(grid[..]), grid[..])
    ensures CompleteBelow(old(grid[..]), eps, grid[..], grid.Length)
    ensures Sound(old(grid[..]), eps, old(grid[..])) ==> Sound(old(grid[..]), eps, grid[..])
  {
    ghost var g := grid[..];
    RowStartIsProduct(w, h);
    var y := 0;
    while y < h
      invariant 0 <= y <= h
      invariant Valid(grid[..]) && FeaturesKept(g, grid[..])
      invariant Coarser(g, grid[..])
      invariant CompleteBelow(g, eps, grid[..], RowStart(w, y))
      invariant Sound(g, eps, g) ==> Sound(g, eps, grid[..])
    {
      ghost var s := grid[..];
      ComponentsRow(grid, g, w, h, y, eps);
      CoarserTrans(g, s, grid[..]);
      y := y + 1;
    }
  }

  /** A chain of steps stays inside one set of a complete partition. */
  lemma {:induction false} PathInOneSet(g: seq<Node>, eps: real, s: seq<Node>, path: seq<nat>)
    requires Valid(s) && |s| == |g| && CompleteBelow(g, eps, s, |g|) && IsPath(g, eps, path)
    ensures SameSet(s, path[0], path[|path| - 1])
    decreases |path|
  {
    if |path| > 1 {
      var rest := path[1..];
      assert IsPath(g, eps, rest) by {
        forall k | 0 <= k < |rest| - 1
          ensures Step(g, eps, rest[k], rest[k + 1])
        {
          assert Step(g, eps, path[k + 1], path[k + 2]);
        }
      }
      PathInOneSet(g, eps, s, rest);
      assert Step(g, eps, path[0], path[1]);
    }
  }

  /**
    A partition that is sound and complete for the links of `g` has exactly
    the connected components of `g` as its sets.
   */
  lemma ComponentsExact(g: seq<Node>, eps: real, s: seq<Node>, i: nat, j: nat)
    requires Valid(s) && |s| == |g| && i < |g| && j < |g|
    requires Sound(g, eps, s) && CompleteBelow(g, eps, s, |g|)
    ensures SameSet(s, i, j) <==> Connected(g, eps, i, j)
  {
    if SameSet(s, i, j) {
      assert Connected(g, eps, i, Root(s, i)) && Connected(g, eps, j, Root(s, j));
      ConnectedSym(g, eps, j, Root(s, j));
      ConnectedTrans(g, eps, i, Root(s, i), j);
    }
    if Connected(g, eps, i, j) {
      var path :| IsPath(g, eps, path) && path[0] == i && path[|path| - 1] == j;
      PathInOneSet(g, eps, s, path);
    }
  }

  /** Edges, and so connection, depend only on what union-find never changes. */
  lemma ConnectedByFeatures(g: seq<Node>, t: seq<Node>, eps: real, i: nat, j: nat)
    requires FeaturesKept(g, t)
    ensures Connected(g, eps, i, j) <==> Connected(t, eps, i, j)
  {
    forall a: nat, b: nat | a < |g| && b < |g|
      ensures Edge(g, eps, a, b) <==> Edge(t, eps, a, b)
    {
      assert Links(g[a]) == Links(t[a]) by {
        assert Features(g[a]) == Features(t[a]);
      }
      MergeableByFeatures(g[a], g[b], t[a], t[b], eps);
    }
    if Connected(g, eps, i, j) {
      var path :| IsPath(g, eps, path) && path[0] == i && path[|path| - 1] == j;
      assert IsPath(t, eps, path);
    }
    if Connected(t, eps, i, j) {
      var path :| IsPath(t, eps, path) && path[0] == i && path[|path| - 1] == j;
      assert IsPath(g, eps, path);
    }
  }

  /**
    `create_graph` followed by `find_components`, as the program runs them:
    two pixels end in one set exactly when a chain of mergeable links joins them.
   */
  method Segment(img: array<byte>, w: nat, h: nat, eps: real) returns (grid: array<Node>)
    requires img.Length == w * h * 4
    ensures fresh(grid) && grid.Length == w * h && Valid(grid[..])
    ensures forall p :: InBounds(w, h, p) ==> Features(grid[Index(w, h, p)]) == Features(NodeAt(img[..], w, h, p))
    ensures forall i, j :: 0 <= i < grid.Length && 0 <= j < grid.Length ==>
              (SameSet(grid[..], i, j) <==> Connected(grid[..], eps, i, j))
  {
    grid := CreateGraph(img, w, h);
    ghost var g := grid[..];
    InitialForest(img[..], w, h, g);
    InitialLinksInRange(img[..], w, h, g);
    forall i | 0 <= i < |g|
      ensures Connected(g, eps, i, Root(g, i))
    {
      ConnectedRefl(g, eps, i);
    }
    FindComponents(grid, w, h, eps);
    forall i, j | 0 <= i < grid.Length && 0 <= j < grid.Length
      ensures SameSet(grid[..], i, j) <==> Connected(grid[..], eps, i, j)
    {
      ComponentsExact(g, eps, grid[..], i, j);
      ConnectedByFeatures(g, grid[..], eps, i, j);
    }
  }
}
