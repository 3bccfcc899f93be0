/// The body of the tracker's `main` from contour extraction on: one polygon per
/// contour, the quad-pair walk, and one ring mask per pair. Image decoding, edge
/// detection, contour tracing, polygon simplification and rasterisation belong to
/// the vision library and enter as parameters.
module Tracking {
  import opened Geometry
  import opened Hierarchy
  import opened Matcher
  import opened Masks
  import MatcherProperties

  /** The simplification tolerance, as a fraction of the contour's closed perimeter. */
  const Tolerance: real := 0.02

  /** Lines 36-45: a vector of one empty polygon per contour, then slot `i` overwritten with
      `contours[i]` simplified to within 2% of its perimeter. `perimeter` stands for
      cv::arcLength of a closed curve, `approximate` for cv::approxPolyDP. */
  method BuildPolygons(contours: seq<Contour>, perimeter: Contour -> real,
                       approximate: (Contour, real) -> Polygon)
    returns (polygons: seq<Polygon>)
    ensures |polygons| == |contours|
    ensures forall i :: 0 <= i < |contours| ==>
      polygons[i] == approximate(contours[i], perimeter(contours[i]) * Tolerance)
  {
    var slots := new Polygon[|contours|](_ => []);
    var i := 0;
    while i < |contours|
      invariant 0 <= i <= |contours|
      invariant forall k :: 0 <= k < i ==> slots[k] == approximate(contours[k], perimeter(contours[k]) * Tolerance)
    {
      var contour := contours[i];
      var length := perimeter(contour);
      slots[i] := approximate(contours[i], length * Tolerance);
      i := i + 1;
    }
    polygons := slots[..];
  }

  /** Lines 28-63 after the library calls: `rows` and `cols` are the image's size,
      `contours` and `h` what cv::findContours returned (one hierarchy node per contour),
      and `covers(p)` the pixels cv::fillConvexPoly paints for polygon `p`. The masks that
      the source shows one at a time are returned in pair order. */
  method Track(rows: nat, cols: nat, contours: seq<Contour>, h: seq<Node>,
               perimeter: Contour -> real, approximate: (Contour, real) -> Polygon,
               covers: Polygon -> ((int, int) -> bool), ghost rank: seq<nat>)
    returns (polygons: seq<Polygon>, trace: seq<Pair>, pairs: seq<Pair>, masks: seq<array2<byte>>)
    requires |h| == |contours| && Linked(h) && Ranked(h, rank)
    ensures |polygons| == |contours|
    ensures forall i :: 0 <= i < |contours| ==>
      polygons[i] == approximate(contours[i], perimeter(contours[i]) * Tolerance)
    ensures WellFormed(h, polygons, rank)
    ensures trace == TraceUpTo(h, polygons, rank, |h|)
    ensures pairs == PairsUpTo(h, polygons, rank, |h|)
    ensures |masks| == |pairs|
    ensures forall k :: 0 <= k < |pairs| ==>
      pairs[k].outer < |polygons| && pairs[k].inner < |polygons| &&
      IsRing(masks[k], rows, cols, covers(polygons[pairs[k].outer]), covers(polygons[pairs[k].inner]))
    ensures forall k :: 0 <= k < |masks| ==> fresh(masks[k])
    ensures forall a, b :: 0 <= a < b < |masks| ==> masks[a] != masks[b]
  {
    polygons := BuildPolygons(contours, perimeter, approximate);
    trace, pairs := MatchQuadPairs(h, polygons, rank);
    MatcherProperties.PairsInRange(h, polygons, rank, |h|);
    masks := [];
    var k := 0;
    while k < |pairs|
      invariant 0 <= k <= |pairs| && |masks| == k
      invariant forall t :: 0 <= t < k ==>
        IsRing(masks[t], rows, cols, covers(polygons[pairs[t].outer]), covers(polygons[pairs[t].inner]))
      invariant forall t :: 0 <= t < k ==> fresh(masks[t])
      invariant forall a, b :: 0 <= a < b < k ==> masks[a] != masks[b]
    {
      var outer := polygons[pairs[k].outer];
      var inner := polygons[pairs[k].inner];
      var mask := RingMask(rows, cols, covers(outer), covers(inner));
      masks := masks + [mask];
      k := k + 1;
    }
  }
}
