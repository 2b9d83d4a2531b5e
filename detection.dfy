/** The detection record consumed by the seat-assignment pipeline. */
module Detections {

  datatype Option<+T> = None | Some(value: T)

  /** An image point (x, y) in pixel coordinates. */
  datatype Point = Point(x: real, y: real)

  /** Axis-aligned bounding box [x1, y1, x2, y2]. */
  datatype Box = Box(x1: real, y1: real, x2: real, y2: real)

  /** One detected object. The detector derives `center` as the midpoint of `bbox`;
      the record stores it as a field, and so does this model. */
  datatype Detection = Detection(bbox: Box, confidence: real, className: string, center: Point)
}
