/**
 * Stand-ins for the Unity engine values the editor code touches: vectors, rectangles and
 * input events. Unity's single-precision floats are modelled as exact reals.
 */
module UnityTypes {

  datatype Vector2 = Vector2(x: real, y: real)

  /** `Vector2.zero` */
  const Zero: Vector2 := Vector2(0.0, 0.0)

  /** Component-wise `+` of two vectors, as used by `+=` on positions. */
  function Add(a: Vector2, b: Vector2): Vector2 {
    Vector2(a.x + b.x, a.y + b.y)
  }

  /** A screen rectangle: its top-left position and its size. */
  datatype Rect = Rect(position: Vector2, size: Vector2)

  /** The event kinds the editor distinguishes; every other kind is `Other`. */
  datatype EventType = MouseDown | MouseUp | MouseDrag | Other

  /** An input event: its kind, the mouse button (0 left, 1 right), the pointer position and the drag delta. */
  datatype Event = Event(kind: EventType, button: int, mousePosition: Vector2, delta: Vector2)

  /**
   * `Rect.Contains(point)`: the point lies within the rectangle, its left and top edges
   * included and its right and bottom edges excluded.
   */
  predicate Contains(r: Rect, p: Vector2) {
    && r.position.x <= p.x < r.position.x + r.size.x
    && r.position.y <= p.y < r.position.y + r.size.y
  }
}
