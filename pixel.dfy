/** Pixel locations, shared by the glare detector that reports a peak and
    the advisor that consumes it. */
module Pixels {
  /** A pixel position in OpenCV's (x, y) order: x is the column, y the row. */
  datatype Pixel = Pixel(x: int, y: int)
}
