# Quad-pair matcher of the `tracking` marker detector

`tracking.cc` looks for rectangular markers in one still image. A marker is a black
quadrilateral inside a black quadrilateral, with a white ring between them. After
OpenCV has found edges and traced contours, `main` does three things of its own:

1. It simplifies every contour to a polygon. The polygons go into a vector indexed
   like the contours.
2. It walks the contour hierarchy. Each polygon with exactly four vertices is an
   *outer* candidate. The walk starts at that contour's first child and follows slot
   `[1]` of each hierarchy node while the index is positive. Every contour on that
   walk gets a trace line `outer = i, inner = j`. Every one of them with four vertices
   becomes an (outer, inner) pair.
3. For each pair it builds a *ring mask*. Two zeroed 8-bit rasters of the image's size
   are painted 255 inside the inner and the outer polygon. The ring is their
   saturating difference, outer minus inner.

The Dafny model follows that structure module by module:

- `Geometry`: points, contours, polygons, and the four-vertex test.
- `Hierarchy`: the four-link hierarchy node. It also defines the walk as a
  specification function (`Chain`) and proves facts about it: bounds, link
  iteration, termination and the OpenCV layout.
- `Matcher`: the two nested loops, written as methods with `while` loops. They are
  proved against the specification functions `TraceUpTo` and `PairsUpTo`.
- `MatcherProperties`: what those functions mean, stated without reference to the
  loops.
- `Masks`: CV_8U pixels (a `byte` newtype), `fillConvexPoly` with colour 255,
  saturating matrix subtraction, and the ring mask, all over `array2<byte>`.
- `Tracking`: building the polygons, and `main` from contour extraction onwards.

The sibling walk ends only if the links it follows cannot form a cycle. The model
asks for a ghost `rank` per contour that strictly decreases along every slot-`[1]`
link between positive indices (`Hierarchy.Ranked`). It also asks that the two links
the code reads, first child and slot `[1]`, lie below the number of contours
(`Hierarchy.Linked`). Negative links need no bound, because the test `j > 0` ends the
walk on them.

### Behaviour as written

- OpenCV's `cv::Vec4i` layout is `[0]` next sibling, `[1]` previous sibling, `[2]` first
  child, `[3]` parent. The loop on line 53 follows `hierarchy[j][1]`, so it follows
  *previous*-sibling links. The model names that field `prev` and follows it, like the
  code. cv::findContours gives every first child a previous link of -1. On such a
  hierarchy each outer is paired at most with its first child, and later siblings are
  never examined (`MatcherProperties.OnlyFirstChildPaired`).
- The loop has no `break`. Every four-vertex contour on the walk is paired, not only
  the first one (`MatcherProperties.PairsInnersOf`). The comment on line 52 speaks of
  the *first* inner polygon with four corners, but the loop has no `break`; the model
  follows the code.
- The test `j > 0` also stops the walk at contour 0. Contour 0 is therefore never an
  inner, even when it is a real sibling with four vertices
  (`MatcherProperties.PairsInRange`).
- The code does not check that the inner polygon lies inside the outer one. Where the
  inner polygon sticks out, the saturating subtraction gives 0 (`Masks.IsRing`,
  `Masks.RingMask`).

## Model

| member | source | states |
|---|---|---|
| `Tracking.BuildPolygons` | tracking.cc:36-45 | The polygon sequence has exactly one entry per contour. Entry `i` is contour `i` simplified with tolerance 0.02 times its perimeter, so polygons and contours share one index space. |
| `Tracking.Track` | tracking.cc:28-63 | The polygons are as in `BuildPolygons`. The trace and the pairs are those the walk defines. There is one mask per pair, in pair order. Both indices of every pair are valid polygon indices. Mask `k` is the rows x cols ring of pair `k`'s outer and inner polygons. Every mask is newly allocated, and no two masks share storage. |
| `Matcher.MatchQuadPairs` | tracking.cc:47-56 | With every link in range and a rank that rules out cycles, the nested loops terminate and every index is in bounds. The trace they produce is `TraceUpTo` over all contours and the pairs are `PairsUpTo` over all contours: outers in ascending index order, each followed by its walk. |
| `Matcher.WalkChildren` | tracking.cc:53-56 | The inner loop terminates. It visits exactly the walk from the outer's first child along slot-[1] links while the index is positive. It keeps exactly the visited contours with four vertices, in walking order. |
| `Hierarchy.ChainInRange` | tracking.cc:53 | Every index on the walk is a real contour index other than 0. The test `j > 0` stops on the -1 sentinel and on index 0 alike. |
| `Hierarchy.ChainFollows` | tracking.cc:53 | The walk is exactly the run of slot-[1] link iterates from the start: its k-th element is the k-th iterate, and the iterate just past its end is <= 0. |
| `Hierarchy.ChainRanksDecrease` | tracking.cc:53 | Along the walk the ranks strictly decrease. This is why the loop terminates. |
| `Hierarchy.ChainVisitsOnce` | tracking.cc:53 | The walk never visits a contour twice. |
| `Hierarchy.ChainFromFirstChild` | tracking.cc:53 | Suppose every first child has -1 as its previous-sibling link, as cv::findContours produces it. Then the walk from a first child consists of that child alone, or is empty when the child index is not positive. |
| `MatcherProperties.TraceInnersOf` | tracking.cc:48-54 | For each outer `o`, the contours printed as its inners are exactly its walk, in walking order, whatever their vertex counts. When `o` does not have four vertices, nothing is printed for it. |
| `MatcherProperties.PairsInnersOf` | tracking.cc:48-56 | For each outer `o`, the inners paired with it are exactly the four-vertex contours on its walk, in walking order. All of them are paired, not only the first. When `o` does not have four vertices, nothing is paired with it. |
| `MatcherProperties.PairsExactly` | tracking.cc:48-56 | (o, x) is emitted if and only if all of these hold: `o` has four vertices, `x` is on the walk from `o`'s first child, and `x` has four vertices. |
| `MatcherProperties.TraceExactly` | tracking.cc:48-54 | A line (o, x) is printed if and only if `o` has four vertices and `x` is on its walk. A sibling without four vertices is still reached, so the walk carries on past it. |
| `MatcherProperties.PairsInRange` | tracking.cc:50-56 | Every pair has an outer and an inner with four vertices, both valid indices. The inner index is never 0. |
| `MatcherProperties.TraceInRange` | tracking.cc:50-54 | Every trace line has a four-vertex outer, a valid outer index and a positive, valid inner index. |
| `MatcherProperties.PairsByAscendingOuter` | tracking.cc:48-56 | Pairs come out in non-decreasing outer order. |
| `MatcherProperties.PairsFilterTrace` | tracking.cc:53-56 | The pairs are exactly the trace lines whose inner has four vertices, in trace order. The vertex test drops a sibling but does not end the walk. |
| `MatcherProperties.OnlyFirstChildPaired` | tracking.cc:53 | On a hierarchy with OpenCV's layout, outer `o` is paired only with its first child. That happens exactly when `o` and the child both have four vertices and the child's index is positive; otherwise `o` gets no pair. |
| `Masks.SatSubOnMasks` | tracking.cc:63 | On 0/255 pixels the saturating difference is 255 exactly when the outer pixel is set and the inner pixel is not, and 0 otherwise. |
| `Masks.Fill` | tracking.cc:61-62 | Every covered pixel becomes 255. Every other pixel keeps its value. |
| `Masks.Subtract` | tracking.cc:63 | The result is a newly allocated matrix. It has the operands' size, and each pixel is the saturating difference of the operands' pixels. |
| `Masks.RingMask` | tracking.cc:59-63 | The mask is newly allocated and rows x cols. A pixel is 255 exactly where the outer polygon covers it and the inner one does not; everywhere else it is 0, including where the inner polygon sticks out of the outer one. |

## Left out

- Image decoding, grey conversion and edge detection (`cv::imread`, `cv::cvtColor`, `cv::Canny`, lines 19-26) are library calls. The model starts from the image size, the contours and the hierarchy.
- `cv::findContours` (line 34) is a library primitive. Its contours and hierarchy are inputs, with one hierarchy node per contour.
- `cv::arcLength` and `cv::approxPolyDP` (lines 40-43) are floating-point library primitives. They are the parameters `perimeter` and `approximate`. Only the tolerance factor 0.02 and the indexing are modelled.
- The rasterisation inside `cv::fillConvexPoly` (lines 61-62) is a library call. Which pixels a polygon covers is the parameter `covers`.
- `Tracking.Track`: the source computes and shows each mask inside the inner loop. The model first collects the pairs, then builds the masks in the same order. Masks do not depend on each other, so the order and contents are the same.
- The trace written to standard output (line 54) is returned as a sequence. Nothing is printed.
- The debug rendering, `cv::imshow` and the blocking `cv::waitKey` loop (lines 65-71) are left out, as is the disabled `#if 0` block (lines 74-84). They are display and interaction only.
- The unused Hough constants (lines 6-8) and the argument-count check (lines 12-17) are left out. They have no behaviour of the matcher.
- The `next` and `parent` links of a hierarchy node are kept in the datatype but never read, as in the source.
