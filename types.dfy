/** Value types shared by the renderer: the C integer widths it relies on and the
    geometric records of render_engine.h (point_t, vector_t, triangle_t).
    `rounding_t` is `float` in the source; it is modelled as `real`. */
module Types {

  /** uint8_t: colour indices and bytes sent to the terminal. */
  type Byte = x: int | 0 <= x < 0x100

  /** uint16_t: framebuffer dimensions, pixel coordinates, loop counters. */
  type U16 = x: int | 0 <= x < 0x1_0000

  datatype Option<T> = None | Some(value: T)

  /** point_t: a fractional screen coordinate, possibly off screen. */
  datatype Point2 = Point2(x: real, y: real)

  /** vector_t: a world position or direction. */
  datatype Vector3 = Vector3(x: real, y: real, z: real)

  /** triangle_t: three vertices and a colour index. */
  datatype Triangle = Triangle(p1: Vector3, p2: Vector3, p3: Vector3, color: Byte)
}
