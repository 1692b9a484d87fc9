/**
  The disjoint-set forest over the grid nodes (`find_set`, `union_set`): each
  node's `p` names its parent, roots are their own parent, and `rank` bounds
  the height of the tree under a root.  `Root` is the set representative a
  node's parent chain ends at; the methods change parents and ranks in place.
 */
module DisjointSet {
  import opened Raster
  import opened PixelGraph

  /** The parent of node `i` is a node, and a non-root's parent has a larger rank. */
  predicate ParentOk(s: seq<Node>, i: nat)
    requires i < |s|
  {
    s[i].p < |s| && (s[i].p != i ==> s[i].rank < s[s[i].p].rank)
  }

  /** A well-formed forest: every parent link stays inside and climbs in rank. */
  predicate Valid(s: seq<Node>) {
    forall i :: 0 <= i < |s| ==> ParentOk(s, i)
  }

  /** An upper bound of every rank in `s`. */
  function MaxRank(s: seq<Node>): (m: nat)
    ensures forall i :: 0 <= i < |s| ==> s[i].rank <= m
  {
    if |s| == 0 then 0
    else
      var m := MaxRank(s[..|s| - 1]);
      assert forall i :: 0 <= i < |s| - 1 ==> s[..|s| - 1][i] == s[i];
      if s[|s| - 1].rank > m then s[|s| - 1].rank else m
  }

  /** The root of node `i`: where its parent chain ends. */
  ghost function Root(s: seq<Node>, i: nat): (r: nat)
    requires Valid(s) && i < |s|
    ensures r < |s| && s[r].p == r && s[i].rank <= s[r].rank
    decreases MaxRank(s) - s[i].rank
  {
    assert ParentOk(s, i);
    if s[i].p == i then i else Root(s, s[i].p)
  }

  /** `i` and `j` are in the same set. */
  ghost predicate SameSet(s: seq<Node>, i: nat, j: nat)
    requires Valid(s) && i < |s| && j < |s|
  {
    Root(s, i) == Root(s, j)
  }

  /** Two forests over the same nodes put every node under the same root. */
  ghost predicate SameRoots(s: seq<Node>, t: seq<Node>)
    requires Valid(s) && Valid(t) && |s| == |t|
  {
    forall i :: 0 <= i < |s| ==> Root(s, i) == Root(t, i)
  }

  /** `t` differs from `s` in parent links only. */
  predicate ParentsOnlyChanged(s: seq<Node>, t: seq<Node>) {
    |s| == |t| && forall i :: 0 <= i < |s| ==> t[i] == s[i].(p := t[i].p)
  }

  /** `t` differs from `s` in parent links and ranks only. */
  predicate FeaturesKept(s: seq<Node>, t: seq<Node>) {
    |s| == |t| && forall i :: 0 <= i < |s| ==> Features(t[i]) == Features(s[i])
  }

  /** One path-halving step at `x`: `x->p = x->p->p`. */
  function Halve(s: seq<Node>, x: nat): seq<Node>
    requires Valid(s) && x < |s|
  {
    assert ParentOk(s, x) && ParentOk(s, s[x].p);
    s[x := s[x].(p := s[s[x].p].p)]
  }

  /** `parent` adopts the root `child`: `child->p = parent`. */
  function Link(s: seq<Node>, child: nat, parent: nat): seq<Node>
    requires child < |s|
  {
    s[child := s[child].(p := parent)]
  }

  /** The rank of `r` goes up by one: `r->rank++`. */
  function Bump(s: seq<Node>, r: nat): seq<Node>
    requires r < |s|
  {
    s[r := s[r].(rank := s[r].rank + 1)]
  }

  /** Forests with the same parent links have the same roots. */
  lemma {:induction false} SameParentsSameRoot(s: seq<Node>, t: seq<Node>, i: nat)
    requires Valid(s) && Valid(t) && |s| == |t| && i < |s|
    requires forall j :: 0 <= j < |s| ==> s[j].p == t[j].p
    ensures Root(s, i) == Root(t, i)
    decreases MaxRank(s) - s[i].rank
  {
    assert ParentOk(s, i);
    if s[i].p != i {
      SameParentsSameRoot(s, t, s[i].p);
    }
  }

  /** Path halving keeps the forest well formed. */
  lemma HalveValid(s: seq<Node>, x: nat)
    requires Valid(s) && x < |s|
    ensures Valid(Halve(s, x)) && ParentsOnlyChanged(s, Halve(s, x))
  {
    var t := Halve(s, x);
    assert ParentOk(s, x) && ParentOk(s, s[x].p);
    forall i | 0 <= i < |t|
      ensures ParentOk(t, i)
    {
      assert ParentOk(s, i);
    }
  }

  /** Path halving moves no node to another set. */
  lemma {:induction false} HalveKeepsRoot(s: seq<Node>, x: nat, i: nat)
    requires Valid(s) && x < |s| && i < |s|
    ensures Valid(Halve(s, x)) && Root(Halve(s, x), i) == Root(s, i)
    decreases MaxRank(s) - s[i].rank
  {
    HalveValid(s, x);
    var t := Halve(s, x);
    assert ParentOk(s, i) && ParentOk(s, x);
    var par := s[x].p;
    assert ParentOk(s, par);
    if i != x {
      assert t[i] == s[i];
      if s[i].p != i {
        HalveKeepsRoot(s, x, s[i].p);
      }
    } else if par != x {
      var gp := s[par].p;
      assert t[x].p == gp && gp != x;
      HalveKeepsRoot(s, x, gp);
      assert Root(s, par) == Root(s, gp);
    } else {
      assert t == s;
    }
  }

  /** Path halving keeps every root. */
  lemma HalveKeepsRoots(s: seq<Node>, x: nat)
    requires Valid(s) && x < |s|
    ensures Valid(Halve(s, x)) && SameRoots(s, Halve(s, x))
  {
    HalveValid(s, x);
    forall i | 0 <= i < |s|
      ensures Root(s, i) == Root(Halve(s, x), i)
    {
      HalveKeepsRoot(s, x, i);
    }
  }

  /**
    `find_set` with path halving: returns the root of `x0`, moving no node to
    another set and changing nothing but parent links.
   */
  method FindSet(grid: array<Node>, x0: nat) returns (root: nat)
    requires Valid(grid[..]) && x0 < grid.Length
    modifies grid
    ensures Valid(grid[..]) && ParentsOnlyChanged(old(grid[..]), grid[..])
    ensures SameRoots(old(grid[..]), grid[..])
    ensures root == Root(old(grid[..]), x0)
  {
    ghost var s0 := grid[..];
    var x: nat := x0;
    while grid[x].p != x
      invariant x < grid.Length && Valid(grid[..]) && ParentsOnlyChanged(s0, grid[..])
      invariant SameRoots(s0, grid[..])
      invariant Root(grid[..], x) == Root(s0, x0)
      decreases MaxRank(s0) - grid[x].rank
    {
      ghost var before := grid[..];
      assert ParentOk(before, x) && ParentOk(before, before[x].p);
      var par := grid[x].p;
      grid[x] := grid[x].(p := grid[par].p);
      assert grid[..] == Halve(before, x);
      HalveKeepsRoots(before, x);
      x := grid[x].p;
      assert s0[x].rank == grid[x].rank && s0[x].rank <= MaxRank(s0);
    }
    root := x;
  }

  /** The squared Euclidean distance between the colours of two nodes. */
  function SqDist(n: Node, m: Node): nat {
    var dr, dg, db := n.r - m.r, n.g - m.g, n.b - m.b;
    dr * dr + dg * dg + db * db
  }

  /**
    `sqrt(d) < eps` for an integer `d >= 0`, decided without a square root:
    it holds exactly when `eps` is positive and `d < eps * eps` (WithinEpsIsSqrtTest).
   */
  predicate WithinEps(d: nat, eps: real) {
    0.0 < eps && (d as real) < eps * eps
  }

  /** Two neighbours may be merged: not both dark (red below 40) and colours closer than `eps`. */
  predicate Mergeable(n: Node, m: Node, eps: real) {
    !(n.r < 40 && m.r < 40) && WithinEps(SqDist(n, m), eps)
  }

  /** Whether two nodes may be merged depends on their features only. */
  lemma MergeableByFeatures(n: Node, m: Node, n2: Node, m2: Node, eps: real)
    requires Features(n) == Features(n2) && Features(m) == Features(m2)
    ensures Mergeable(n, m, eps) == Mergeable(n2, m2, eps)
  {
    assert n.r == n2.r && n.g == n2.g && n.b == n2.b;
    assert m.r == m2.r && m.g == m2.g && m.b == m2.b;
    assert SqDist(n, m) == SqDist(n2, m2);
  }

  /** The root of the union of the sets of `a` and `b`: the higher-ranked root, `b`'s on a tie. */
  ghost function Winner(s: seq<Node>, a: nat, b: nat): nat
    requires Valid(s) && a < |s| && b < |s|
  {
    if s[Root(s, a)].rank > s[Root(s, b)].rank then Root(s, a) else Root(s, b)
  }

  /** `union_set(a, b, eps)` merges the two sets: they differ and the nodes are mergeable. */
  ghost predicate Merges(s: seq<Node>, a: nat, b: nat, eps: real)
    requires Valid(s) && a < |s| && b < |s|
  {
    Mergeable(s[a], s[b], eps) && Root(s, a) != Root(s, b)
  }

  /**
    The effect of `union_set(a, b, eps)` on the roots: when it merges, every
    node of the two sets goes under the winner; every other node keeps its root.
   */
  ghost predicate UnionSpec(s: seq<Node>, t: seq<Node>, a: nat, b: nat, eps: real)
    requires Valid(s) && Valid(t) && |s| == |t| && a < |s| && b < |s|
  {
    forall i :: 0 <= i < |s| ==>
      Root(t, i) == (if Merges(s, a, b, eps) && (Root(s, i) == Root(s, a) || Root(s, i) == Root(s, b))
                     then Winner(s, a, b) else Root(s, i))
  }

  /** Raising the rank of a root keeps the forest well formed and every root. */
  lemma BumpKeepsRoots(s: seq<Node>, r: nat)
    requires Valid(s) && r < |s| && s[r].p == r
    ensures Valid(Bump(s, r)) && SameRoots(s, Bump(s, r))
  {
    var t := Bump(s, r);
    forall i | 0 <= i < |t|
      ensures ParentOk(t, i)
    {
      assert ParentOk(s, i);
    }
    forall i | 0 <= i < |s|
      ensures Root(s, i) == Root(t, i)
    {
      SameParentsSameRoot(s, t, i);
    }
  }

  /** Hanging root `a` under a root `b` of larger rank keeps the forest well formed. */
  lemma LinkValid(s: seq<Node>, a: nat, b: nat)
    requires Valid(s) && a < |s| && b < |s| && s[a].p == a && s[b].p == b && s[a].rank < s[b].rank
    ensures Valid(Link(s, a, b))
  {
    var t := Link(s, a, b);
    forall i | 0 <= i < |t|
      ensures ParentOk(t, i)
    {
      assert ParentOk(s, i);
    }
  }

  /** After hanging root `a` under root `b`, the nodes of `a`'s set have root `b`; the rest keep theirs. */
  lemma {:induction false} LinkRoot(s: seq<Node>, a: nat, b: nat, i: nat)
    requires Valid(s) && a < |s| && b < |s| && s[a].p == a && s[b].p == b && s[a].rank < s[b].rank
    requires i < |s|
    ensures Valid(Link(s, a, b))
    ensures Root(Link(s, a, b), i) == if Root(s, i) == a then b else Root(s, i)
    decreases MaxRank(s) - s[i].rank
  {
    LinkValid(s, a, b);
    var t := Link(s, a, b);
    assert ParentOk(s, i);
    if i == a {
      assert t[a].p == b && t[b] == s[b];
    } else {
      assert t[i] == s[i];
      if s[i].p != i {
        LinkRoot(s, a, b, s[i].p);
      }
    }
  }

  /** The linking step of `union_set` on two distinct roots, by rank. */
  method LinkByRank(grid: array<Node>, ra: nat, rb: nat)
    requires Valid(grid[..]) && ra < grid.Length && rb < grid.Length && ra != rb
    requires grid[ra].p == ra && grid[rb].p == rb
    modifies grid
    ensures Valid(grid[..]) && FeaturesKept(old(grid[..]), grid[..])
    ensures var win := if old(grid[ra].rank) > old(grid[rb].rank) then ra else rb;
            forall i :: 0 <= i < grid.Length ==>
              Root(grid[..], i) == if Root(old(grid[..]), i) in {ra, rb} then win else Root(old(grid[..]), i)
    ensures forall i :: 0 <= i < grid.Length ==>
              grid[i].rank == old(grid[i].rank) + if i == rb && old(grid[ra].rank) == old(grid[rb].rank) then 1 else 0
  {
    ghost var s := grid[..];
    if grid[ra].rank > grid[rb].rank {
      grid[rb] := grid[rb].(p := ra);
      assert grid[..] == Link(s, rb, ra);
      LinkValid(s, rb, ra);
      forall i | 0 <= i < grid.Length
        ensures Root(grid[..], i) == if Root(s, i) in {ra, rb} then ra else Root(s, i)
      {
        LinkRoot(s, rb, ra, i);
      }
    } else {
      grid[ra] := grid[ra].(p := rb);
      if grid[ra].rank == grid[rb].rank {
        grid[rb] := grid[rb].(rank := grid[rb].rank + 1);
        BumpKeepsRoots(s, rb);
        assert grid[..] == Link(Bump(s, rb), ra, rb);
        LinkValid(Bump(s, rb), ra, rb);
        forall i | 0 <= i < grid.Length
          ensures Root(grid[..], i) == if Root(s, i) in {ra, rb} then rb else Root(s, i)
        {
          LinkRoot(Bump(s, rb), ra, rb, i);
        }
      } else {
        assert grid[..] == Link(s, ra, rb);
        LinkValid(s, ra, rb);
        forall i | 0 <= i < grid.Length
          ensures Root(grid[..], i) == if Root(s, i) in {ra, rb} then rb else Root(s, i)
        {
          LinkRoot(s, ra, rb, i);
        }
      }
    }
  }

  /**
    `union_set(a, b, eps)`: unless both nodes are dark, finds both roots and,
    when they differ and the colours are within `eps`, links them by rank.
   */
  method UnionSet(grid: array<Node>, a: nat, b: nat, eps: real)
    requires Valid(grid[..]) && a < grid.Length && b < grid.Length
    modifies grid
    ensures Valid(grid[..]) && FeaturesKept(old(grid[..]), grid[..])
    ensures UnionSpec(old(grid[..]), grid[..], a, b, eps)
    ensures RanksAfterUnion(old(grid[..]), grid[..], a, b, eps)
    ensures old(grid[a].r) < 40 && old(grid[b].r) < 40 ==> grid[..] == old(grid[..])
  {
    ghost var s := grid[..];
    if grid[a].r < 40 && grid[b].r < 40 {
      NoMergeSpec(s, s, a, b, eps);
      return;
    }
    var ra := FindSet(grid, a);
    var rb := FindSet(grid, b);
    ghost var s1 := grid[..];
    var diff := SqDist(grid[a], grid[b]);
    if ra != rb && WithinEps(diff, eps) {
      LinkByRank(grid, ra, rb);
      MergeSpec(s, s1, grid[..], a, b, eps);
    } else {
      NoMergeSpec(s, s1, a, b, eps);
    }
  }

  /**
    The ranks after `union_set`: only the root of `b` can grow, by one, and
    only when the two sets are merged from roots of equal rank.
   */
  ghost predicate RanksAfterUnion(s: seq<Node>, t: seq<Node>, a: nat, b: nat, eps: real)
    requires Valid(s) && |s| == |t| && a < |s| && b < |s|
  {
    forall i :: 0 <= i < |s| ==>
      t[i].rank == s[i].rank +
        if Merges(s, a, b, eps) && i == Root(s, b) && s[Root(s, a)].rank == s[Root(s, b)].rank then 1 else 0
  }

  /** When `union_set` links nothing, `UnionSpec` holds of any forest with the old roots. */
  lemma NoMergeSpec(s: seq<Node>, t: seq<Node>, a: nat, b: nat, eps: real)
    requires Valid(s) && Valid(t) && |s| == |t| && a < |s| && b < |s|
    requires SameRoots(s, t) && FeaturesKept(s, t)
    requires !Merges(s, a, b, eps) || Root(t, a) == Root(t, b)
             || !Mergeable(t[a], t[b], eps)
    ensures UnionSpec(s, t, a, b, eps)
  {
    assert Features(t[a]) == Features(s[a]) && Features(t[b]) == Features(s[b]);
    MergeableByFeatures(t[a], t[b], s[a], s[b], eps);
    assert Root(t, a) == Root(s, a) && Root(t, b) == Root(s, b);
    assert !Merges(s, a, b, eps);
    forall i | 0 <= i < |s|
      ensures Root(t, i) == Root(s, i)
    {
    }
  }

  /** When `union_set` links the two roots by rank, `UnionSpec` holds of the result. */
  lemma MergeSpec(s: seq<Node>, s1: seq<Node>, t: seq<Node>, a: nat, b: nat, eps: real)
    requires Valid(s) && Valid(s1) && Valid(t) && |s| == |s1| == |t| && a < |s| && b < |s|
    requires SameRoots(s, s1) && ParentsOnlyChanged(s, s1) && FeaturesKept(s1, t)
    requires Root(s, a) != Root(s, b) && Mergeable(s1[a], s1[b], eps)
    requires var ra, rb := Root(s, a), Root(s, b);
             var win := if s1[ra].rank > s1[rb].rank then ra else rb;
             forall i :: 0 <= i < |t| ==>
               Root(t, i) == if Root(s1, i) in {ra, rb} then win else Root(s1, i)
    ensures UnionSpec(s, t, a, b, eps) && FeaturesKept(s, t)
  {
    var ra, rb := Root(s, a), Root(s, b);
    assert s1[a] == s[a].(p := s1[a].p) && s1[b] == s[b].(p := s1[b].p);
    MergeableByFeatures(s1[a], s1[b], s[a], s[b], eps);
    assert Merges(s, a, b, eps);
    assert s1[ra].rank == s[ra].rank && s1[rb].rank == s[rb].rank;
    var win := if s1[ra].rank > s1[rb].rank then ra else rb;
    assert Winner(s, a, b) == win;
    forall i | 0 <= i < |s|
      ensures Features(t[i]) == Features(s[i])
      ensures Root(t, i) == if Root(s, i) == ra || Root(s, i) == rb then win else Root(s, i)
    {
      assert s1[i] == s[i].(p := s1[i].p);
      assert Root(s1, i) == Root(s, i);
    }
  }

  /** `WithinEps` is the C test `sqrt(d) < eps`: for the non-negative root `r` of `d`, it holds iff `r < eps`. */
  lemma WithinEpsIsSqrtTest(d: nat, r: real, eps: real)
    requires 0.0 <= r && r * r == (d as real)
    ensures WithinEps(d, eps) <==> r < eps
  {
    var rr, re, ee := r * r, r * eps, eps * eps;
    if r < eps {
      assert rr <= re < ee;
    } else if 0.0 < eps {
      assert ee <= re <= rr;
    }
  }

  /** The forest `create_graph` builds is valid and every node is alone in its set. */
  lemma InitialForest(img: seq<byte>, w: nat, h: nat, g: seq<Node>)
    requires |img| == w * h * 4 && IsInitialGraph(img, w, h, g)
    ensures Valid(g)
    ensures forall i :: 0 <= i < |g| ==> Root(g, i) == i
  {
    forall i | 0 <= i < |g|
      ensures ParentOk(g, i)
    {
      InitialNodesAreRoots(img, w, h, g, i);
    }
    forall i | 0 <= i < |g|
      ensures Root(g, i) == i
    {
      InitialNodesAreRoots(img, w, h, g, i);
    }
  }

  /** Node `i` is in the set of `a` or in the set of `b`. */
  ghost predicate InEither(s: seq<Node>, a: nat, b: nat, i: nat)
    requires Valid(s) && a < |s| && b < |s| && i < |s|
  {
    Root(s, i) == Root(s, a) || Root(s, i) == Root(s, b)
  }

  /** After `union_set(a, b, eps)` on mergeable nodes, `a` and `b` are in the same set. */
  lemma UnionJoins(s: seq<Node>, t: seq<Node>, a: nat, b: nat, eps: real)
    requires Valid(s) && Valid(t) && |s| == |t| && a < |s| && b < |s|
    requires UnionSpec(s, t, a, b, eps) && Mergeable(s[a], s[b], eps)
    ensures SameSet(t, a, b)
  {
    assert Root(t, a) == (if Merges(s, a, b, eps) then Winner(s, a, b) else Root(s, a));
    assert Root(t, b) == (if Merges(s, a, b, eps) then Winner(s, a, b) else Root(s, b));
  }

  /**
    `union_set(a, b, eps)` joins exactly the two sets of `a` and `b`, and only
    when it merges: two nodes share a set afterwards iff they did before, or the
    union merged and each of them lies in the set of `a` or of `b`.
   */
  lemma UnionExact(s: seq<Node>, t: seq<Node>, a: nat, b: nat, eps: real, i: nat, j: nat)
    requires Valid(s) && Valid(t) && |s| == |t| && a < |s| && b < |s| && i < |s| && j < |s|
    requires UnionSpec(s, t, a, b, eps)
    ensures SameSet(t, i, j) <==>
            SameSet(s, i, j) || (Merges(s, a, b, eps) && InEither(s, a, b, i) && InEither(s, a, b, j))
  {
    var m := Merges(s, a, b, eps);
    assert Root(t, i) == (if m && InEither(s, a, b, i) then Winner(s, a, b) else Root(s, i));
    assert Root(t, j) == (if m && InEither(s, a, b, j) then Winner(s, a, b) else Root(s, j));
    if m {
      assert Winner(s, a, b) == Root(s, a) || Winner(s, a, b) == Root(s, b);
    }
  }
}
