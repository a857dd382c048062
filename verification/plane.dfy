/** The vertices of the benchmark. */
module Plane {
  /** A vertex: the `struct point` of the struct-layout files, or one entry
      of each of the arrays `x` and `y` of loop-interchange.cpp. */
  datatype Point = Point(x: int, y: int)
}
