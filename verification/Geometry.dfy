/** QSize, QPoint and QRect as the output classes use them. */
module Geometry {

  datatype Size = Size(width: int, height: int)

  datatype Point = Point(x: int, y: int)

  datatype Rect = Rect(x: int, y: int, width: int, height: int)

  /** A default constructed QSize is invalid. */
  const INVALID_SIZE := Size(-1, -1)

  /** A default constructed QRect. */
  const NULL_RECT := Rect(0, 0, 0, 0)
}
