/** Points of the image plane. */
module Geometry {
  datatype Point = Point(x: real, y: real)
}
