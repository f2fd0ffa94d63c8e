/** Outline vertices. Source coordinates are rounded to 0.001 degrees, so a point is a pair
    of integers in millidegrees: `x` the longitude, `y` the latitude. */
module Geometry {

  datatype Point = Point(x: int, y: int)

  type Ring = seq<Point>
}
