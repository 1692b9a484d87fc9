# Edge-based region colouring, modelled in Dafny

The program loads an RGBA image, stored as 4 bytes per pixel in row-major order. It then:

1. replaces each interior pixel by the magnitude of its Sobel gradient (`apply_filter`);
2. builds a 4-neighbour grid graph of per-pixel nodes (`create_graph`);
3. merges neighbouring nodes whose colours lie within `eps` of each other, using a
   union-find forest with path halving and union by rank (`find_set`, `union_set`,
   `find_components`);
4. floods every dark interior region of the filtered image with a random colour
   (`flood`, `color_components`).

This project models those steps as imperative Dafny over arrays. Each method is proved
against a specification function or predicate, and lemmas prove what the steps mean.

- `Raster` holds the pixel layout: bounds, the row-major index `y*w+x`, the byte offset
  `4*(y*w+x)` and 4-adjacency.
- `EdgeFilter` holds `apply_filter`. Every interior pixel of the result holds the clamped,
  truncated Sobel magnitude of the original, and keeps its own alpha.
- `PixelGraph` holds `create_graph`. The graph is an array of `Node` values whose links
  and parents are array indices instead of pointers.
- `DisjointSet` holds `find_set` and `union_set`. The forest invariant is that ranks
  strictly increase along parent links. `Root` is the specification of `find_set`, and
  `UnionSpec` says exactly which roots `union_set` merges.
- `Components` holds `find_components`. Once it has run, two nodes share a root exactly
  when they are joined by a path of links whose endpoints pass `union_set`'s test.
- `RegionColorer` holds `flood` and `color_components`. `Flood` paints exactly the
  pixels reachable from the start through dark pixels. `FloodStep` models one pass of
  `flood`'s loop, and `Run` models a sequence of passes.

## Model

`FloodStep` is one pass of `flood`'s loop (main_res.c:125-144) on a value state (image and
stack), `Run` is `n` passes, and `Paint` writes one pixel's colour bytes (main_res.c:131-133);
`FloodIteration` proves the array loop body equal to `FloodStep`, and the as-written finding
below is stated with `Run`. `Flooded` is the image a whole fill leaves, and `Scan` is
`color_components`' row-major sequence of fills; the methods below are proved equal to them.

| member | source | states |
|---|---|---|
| Raster.Index | main_res.c:30 | the node index `y*w+x` of an in-bounds pixel is below `w*h` |
| Raster.Offset | main_res.c:31 | the byte offset `4*(y*w+x)` leaves room for all four bytes of the pixel inside the `w*h*4` buffer |
| Raster.RowStartIsProduct | main_res.c:30 | the row start built row by row equals `y*w` |
| Raster.RowMajorOrder | main_res.c:28-29 | a pixel visited earlier by the row-major loops has a smaller index |
| Raster.SplitIndex | main_res.c:30 | the index of `(x, y)` gives back `x` as remainder and `y` as quotient by `w` |
| Raster.PointOfIndex | main_res.c:30 | every index below `w*h` is the index of exactly the pixel `(i % w, i / w)` |
| Raster.OffsetOrder | main_res.c:94-96 | the 4-byte groups of two distinct pixels are disjoint and ordered as the pixels are visited |
| EdgeFilter.WindowEntry | main_res.c:84-87 | entry `3*(dy+1)+(dx+1)` of the 3x3 window is the grey value at `(x+dx, y+dy)` |
| EdgeFilter.KernelSumStep | main_res.c:88-89 | one inner iteration adds exactly the table coefficient times that window entry |
| EdgeFilter.KernelSumIsGradient | main_res.c:77-78 | summing the tables over the window in loop order gives the Sobel gradient of the window |
| EdgeFilter.Isqrt | main_res.c:92 | the integer square root `r` satisfies `r*r <= n < (r+1)*(r+1)`, the truncation of `sqrt` |
| EdgeFilter.ClampedNormIsFloorNorm | main_res.c:92-93 | the magnitude is the truncated Euclidean norm, or 255 when that exceeds 255 |
| EdgeFilter.ReadGray | main_res.c:86-87 | the grey value read is `(r+g+b)/3` of that pixel and lies in 0..255 |
| EdgeFilter.KernelRow | main_res.c:85-90 | one `dx` loop adds one window row's kernel products to `gx` and `gy` |
| EdgeFilter.Sobel | main_res.c:83-91 | `gx` and `gy` are the horizontal and vertical Sobel gradients of the pixel's grey window |
| EdgeFilter.FilteredExtend | main_res.c:94-96 | writing one pixel's four bytes keeps every earlier pixel's filtered value |
| EdgeFilter.FilterPixel | main_res.c:92-96 | the pixel gets the magnitude in its colour bytes and keeps its own alpha; no other byte changes |
| EdgeFilter.FilterRow | main_res.c:82-97 | after a row, every interior pixel up to and including that row is filtered |
| EdgeFilter.FilterInto | main_res.c:81-98 | every interior pixel of the buffer holds the filter's value for the source image |
| EdgeFilter.ApplyFilter | main_res.c:76-102 | every interior pixel of the result holds the magnitude computed from the original image, with the original alpha |
| EdgeFilter.FlatWindowNoGradient | main_res.c:77-78 | both kernels sum to zero, so a uniform window has no gradient |
| EdgeFilter.FlatEntry | main_res.c:84-87 | in a neighbourhood of one grey level, every window entry equals the centre entry |
| EdgeFilter.FlatRegionFiltersToZero | main_res.c:76-93 | a pixel whose 3x3 neighbourhood has one grey level filters to 0 |
| PixelGraph.FillNode | main_res.c:30-41 | the pixel's node gets its colour bytes, its four neighbour links, itself as parent and rank 0; no other node changes |
| PixelGraph.BuiltExtend | main_res.c:29-42 | filling one more node extends the prefix of nodes already built |
| PixelGraph.FillRow | main_res.c:29-42 | after a row, every node up to the end of that row is built |
| PixelGraph.CreateGraph | main_res.c:26-45 | a fresh array in which every node is the one `create_graph` builds for its pixel |
| PixelGraph.InitialNodesAreRoots | main_res.c:40-41 | every new node is its own parent with rank 0 |
| PixelGraph.InitialLinksAreNeighbours | main_res.c:36-39 | every present link points to the in-bounds 4-neighbour of the node's pixel |
| PixelGraph.VerticalLinkPair | main_res.c:36-37 | a pixel's `down` link and the pixel below's `up` link point at each other |
| PixelGraph.HorizontalLinkPair | main_res.c:38-39 | a pixel's `rt` link and the right neighbour's `lt` link point at each other |
| PixelGraph.InitialLinksInRange | main_res.c:36-39 | every link of the new graph is a valid node index |
| DisjointSet.Root | main_res.c:47-53 | following parents from a node ends at a self-parented node of no smaller rank |
| DisjointSet.SameParentsSameRoot | main_res.c:48-50 | roots depend only on the parent links |
| DisjointSet.HalveValid | main_res.c:49 | redirecting a node to its grandparent keeps the forest valid and changes only that parent |
| DisjointSet.HalveKeepsRoot | main_res.c:49 | redirecting a node to its grandparent changes no node's root |
| DisjointSet.HalveKeepsRoots | main_res.c:49 | path halving leaves every root unchanged |
| DisjointSet.FindSet | main_res.c:47-53 | returns the root of `x`, changes only parent links and keeps every node's root |
| DisjointSet.WithinEpsIsSqrtTest | main_res.c:61-65 | comparing the squared distance with `eps*eps` is `sqrt(d) < eps` |
| DisjointSet.MergeableByFeatures | main_res.c:56-65 | whether two nodes may merge depends only on their colour bytes |
| DisjointSet.BumpKeepsRoots | main_res.c:71 | raising a root's rank keeps the forest valid and every root unchanged |
| DisjointSet.LinkValid | main_res.c:67-69 | hanging a lower-ranked root under a higher-ranked one keeps the forest valid |
| DisjointSet.LinkRoot | main_res.c:67-69 | after linking root `a` under root `b`, exactly the nodes rooted at `a` are rooted at `b` |
| DisjointSet.LinkByRank | main_res.c:65-73 | the higher-ranked root wins, `root_b` on a tie; on a tie only `root_b`'s rank grows by one; colours are kept |
| DisjointSet.UnionSet | main_res.c:55-74 | two dark nodes leave the forest untouched; otherwise the roots are merged exactly when they differ and the colour distance is below `eps`; ranks follow union by rank |
| DisjointSet.NoMergeSpec | main_res.c:56-65 | a call that links nothing meets the union specification |
| DisjointSet.MergeSpec | main_res.c:65-73 | linking the two roots by rank meets the union specification |
| DisjointSet.InitialForest | main_res.c:40-41 | the new graph is a valid forest in which each node is its own root |
| DisjointSet.UnionJoins | main_res.c:55-73 | after `union_set` on two nodes that may merge, they share a root |
| DisjointSet.UnionExact | main_res.c:55-73 | after `union_set`, two nodes share a root iff they did before, or the call merged and each was in `a`'s or `b`'s set |
| Components.ConnectedRefl | main_res.c:104-114 | every node is connected to itself |
| Components.ConnectedByStep | main_res.c:108-111 | a mergeable link in either direction connects its two nodes |
| Components.ConnectedSym | main_res.c:104-114 | connection is symmetric |
| Components.ConnectedTrans | main_res.c:104-114 | connection is transitive |
| Components.CoarserTrans | main_res.c:104-114 | "every old set stays inside one new set" is transitive |
| Components.UnionCoarsens | main_res.c:55-74 | `union_set` never separates nodes that shared a root |
| Components.UnionSound | main_res.c:55-74 | if every node was connected to its root, `union_set` along a link keeps it so |
| Components.UnionAlong | main_res.c:108-111 | one `union_set` along a link joins the two ends when they may merge, keeps colours, and only coarsens the sets |
| Components.UnionIfLinked | main_res.c:108-111 | a present link is passed to `union_set`, joining mergeable ends; an absent one leaves the grid exactly as it was |
| Components.UnionLinks | main_res.c:107-111 | after the four calls, the node shares a root with every neighbour it may merge with |
| Components.LinksJoined | main_res.c:107-111 | the four links, in the order up, down, lt, rt, cover every edge out of the node |
| Components.CompleteExtend | main_res.c:105-112 | handling one more node extends the prefix of nodes whose edges are all joined |
| Components.ComponentsRow | main_res.c:106-112 | after a row, every edge out of a node up to the end of that row is joined |
| Components.FindComponents | main_res.c:104-114 | every mergeable link ends inside one set, colours are kept, and if every node was connected to its root it still is |
| Components.PathInOneSet | main_res.c:104-114 | once every edge is joined, the two ends of a path share a root |
| Components.ComponentsExact | main_res.c:104-114 | two nodes share a root iff a path of mergeable links connects them |
| Components.ConnectedByFeatures | main_res.c:56-65 | connection depends only on colours and links, not on the union-find state |
| Components.Segment | main_res.c:170-171 | builds the graph of the image and returns a forest whose sets are exactly the connected regions |
| RegionColorer.PaintOutcome | main_res.c:131-133 | painting a pixel sets its three colour bytes, keeps its alpha, and keeps every other pixel |
| RegionColorer.PushesUnfold | main_res.c:135-144 | the pushes are the four directions' pushes in the order `(0,1)`, `(1,0)`, `(0,-1)`, `(-1,0)` |
| RegionColorer.PushIfMember | main_res.c:138-142 | one direction pushes its neighbour iff it is strictly inside and dark |
| RegionColorer.PushesAreDarkNeighbours | main_res.c:135-144 | a point is pushed iff it is a 4-neighbour strictly inside `0 < x < w`, `0 < y < h` whose red byte is at most the threshold |
| RegionColorer.PushNeighbours | main_res.c:135-144 | the loop appends exactly the dark neighbours to the stack |
| RegionColorer.ReachStart | main_res.c:122-131 | a dark in-bounds start is reached |
| RegionColorer.ReachExtend | main_res.c:135-144 | a dark neighbour inside the push bounds of a reached pixel is reached |
| RegionColorer.ReachIsDark | main_res.c:126-129 | every reached pixel is in bounds and was dark in the original image |
| RegionColorer.PaintedRed | main_res.c:131 | a painted pixel's red is the new red; any other pixel's red is the original |
| RegionColorer.SkipKeeps | main_res.c:126-129 | popping an out-of-bounds or bright point keeps the fill invariant |
| RegionColorer.PaintedExtend | main_res.c:131-133 | painting one more pixel extends the set of painted pixels |
| RegionColorer.PushedInRegion | main_res.c:135-144 | everything pushed from a reached pixel is reached |
| RegionColorer.FrontierKept | main_res.c:135-144 | after painting, every dark neighbour of a painted pixel is painted or on the stack |
| RegionColorer.PaintKeeps | main_res.c:128-144 | popping and painting a dark point keeps the fill invariant and paints a new pixel |
| RegionColorer.FewerLeft | main_res.c:124-145 | painting a new pixel leaves fewer pixels unpainted |
| RegionColorer.PathPainted | main_res.c:124-145 | once the stack is empty, every pixel at the end of a dark path from the start is painted |
| RegionColorer.StepKeeps | main_res.c:124-145 | each pass keeps the fill invariant and either paints a new pixel or shrinks the stack |
| RegionColorer.FloodIteration | main_res.c:125-144 | one pass of the loop on the array is exactly `FloodStep` |
| RegionColorer.Flood | main_res.c:116-147 | terminates, paints exactly the pixels reachable from the start through dark pixels, and leaves every alpha byte and every other pixel as it was; the result is `Flooded` of the old image |
| RegionColorer.OutcomeIsFlooded | main_res.c:124-145 | an image in which every pixel has the fill's outcome (reached: new colour over old alpha; else unchanged) is exactly `Flooded` |
| RegionColorer.FloodPaintsDarkOnly | main_res.c:126-133 | a painted pixel was dark and now has the new red; an unpainted pixel is unchanged |
| RegionColorer.RecolouredTrans | main_res.c:150-159 | successive floods compose into one recolouring |
| RegionColorer.RecolouredRedGrows | main_res.c:153-157 | recolouring never lowers a pixel's red byte |
| RegionColorer.ColorPixel | main_res.c:152-158 | a seed whose red is below `eps` consumes one draw and the image becomes `Flooded` from it with colour `draw(draws)` and threshold `eps`; afterwards the seed is not dark; any other pixel changes nothing and draws nothing |
| RegionColorer.ColorRow | main_res.c:151-159 | the row performs exactly its part of `Scan`: the scan from the row's start on the old image equals the scan from the next row on the new one; no interior pixel up to that row stays dark |
| RegionColorer.ColorComponents | main_res.c:149-161 | the result is `Scan` of the old image: interior pixels in row-major order, each still below `eps` when visited seeding a flood with the next drawn colour; hence no interior pixel stays dark, only dark pixels are recoloured, and an image without seeds is unchanged |
| RegionColorer.PaintBlackIsBlack | main_res.c:131-133 | painting black over a pixel of a 3x3 image whose colour bytes are zero changes nothing |
| RegionColorer.BlackStep | main_res.c:124-144 | on the black image, a pass pops a point and pushes its dark neighbours without changing the image |
| RegionColorer.PushesAt21 | main_res.c:135-144 | from `(2,1)`, the pushes are `(2,2)` then `(1,1)` |
| RegionColorer.PushesAt11 | main_res.c:135-144 | from `(1,1)`, the pushes are `(1,2)` then `(2,1)` |
| RegionColorer.CycleStep | main_res.c:124-144 | on the black image, a pass from a state whose stack ends in `(1,2),(2,1)` or `(1,2),(2,2),(1,1)` leads to such a state again with one more entry |
| RegionColorer.CycleGrows | main_res.c:124-145 | from such a cycling state, `n` passes leave `n` more entries on the stack, so it never empties |
| RegionColorer.FloodNeverEnds | main_res.c:124-145 | flooding a black 3x3 image with black never empties the stack, which outgrows its `w*h` capacity |

## Left out

- Loading and saving PNG files (`load_png_file`, lines 16-24) and `main` (lines 163-180) are
  not modelled. They are file I/O through lodepng. `Components.Segment` models the two
  graph calls of `main`.
- `rand()` (lines 154-156) is replaced by an injected function `draw` from call number
  to colour.
- Floating point is not modelled. `union_set`'s `eps` is a real, and `sqrt(d) < eps` is
  stated as `d < eps*eps` for positive `eps`. `DisjointSet.WithinEpsIsSqrtTest` proves the
  two tests equal. `color_components` receives `eps` as `int`, so 28.0 becomes 28.
- `EdgeFilter.ApplyFilter` says nothing about border pixels. The code copies back a
  `malloc`'d buffer whose border bytes were never written, so their values are
  indeterminate.
- `DisjointSet.UnionSet` and `DisjointSet.WithinEps` treat a non-positive `eps` as merging
  nothing. This matches the source for every real `eps`, but not for NaN.
- Memory allocation and release (`malloc`, `free`) are not modelled. Pointers become array
  indices, and `NULL` links become `None`.
- C `int` overflow is not modelled. `gx*gx+gy*gy` is at most about 2.1 million, and
  `y*w+x` is assumed to fit.
- `Node.rank` is an unbounded natural number; the width of the C `int` is not modelled.
- `flood`'s stack is a sequence without the `w*h` capacity of the C array.
  `RegionColorer.FloodNeverEnds` shows the capacity is overrun for the code as written.
- The forest built by `find_components` is never read by `color_components`: `main` frees
  it unused. The model proves what the forest means (`Components.Segment`) but does not
  connect it to the colouring.
- The magnitude is truncated, not rounded, when `sqrt` is assigned to `int`:
  `EdgeFilter.Isqrt` is the floor.
- Pushed points satisfy `0 < nx < w` and `0 < ny < h`, so a flood can reach the last row and
  column but never row 0 or column 0 (except at its start): `RegionColorer.PushBounds`.
- RegionColorer.Flood: requires the new red byte to exceed `old_val`. Under that condition
  the loop ends. Without it, painted pixels stay eligible and the loop can run forever
  (see Findings).
- RegionColorer.ColorComponents: requires every drawn red byte to exceed `eps`, for the
  same reason. `rand() % 256` can draw any value.
- RegionColorer.ColorPixel: requires every drawn red byte to exceed `eps`, for the same
  reason.
- RegionColorer.ColorRow: requires every drawn red byte to exceed `eps`, for the same
  reason.

## Findings

| source | as written | input that shows it | evidently intended | confidence | as-written member | corrected member |
|---|---|---|---|---|---|---|
| main_res.c:124-145 | `flood` paints a pixel with the random red byte and tests only `red <= old_val`. A painted pixel whose new red is at most `old_val` stays eligible, so neighbours keep pushing each other back. The loop never ends, and `top` runs past the `w*h` stack. | A 3x3 image that is all zero bytes, `eps` 28, and `rand() % 256` giving 0, 0, 0 for the seed `(1,1)`: after `n+1` passes the stack holds `n+2` points. | Each pixel is painted at most once, so the stack holds at most the pending neighbours of painted pixels. This is the case whenever the painted red exceeds the threshold, or when painted pixels are marked. | not executed | RegionColorer.FloodNeverEnds | RegionColorer.Flood |
