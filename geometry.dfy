/// Points, contours and polygons as the tracker sees them: plain vertex
/// sequences in image coordinates.
module Geometry {
  /** A pixel position (cv::Point). */
  datatype Point = Point(x: int, y: int)

  /** A traced edge boundary, as cv::findContours returns it. */
  type Contour = seq<Point>

  /** The simplified boundary of one contour, as cv::approxPolyDP returns it. */
  type Polygon = seq<Point>

  /** The only polygons the matcher accepts, as outer or as inner, have exactly four vertices. */
  predicate IsQuad(p: Polygon)
  {
    |p| == 4
  }
}
