/** The Widget contract of layout.go as data. A container's mouse handler either
    consumes the event itself, reports no consumer (a nil Widget), or hands the
    event to one of its children, whose answer it returns; SetRect hands out
    rectangles to its children. The child handlers themselves are calls into other
    widgets and are not part of a container's own state change. */
module Widget {
  import opened Geometry

  /** Which child of a container: the splitter's two sides, the i-th tab pane,
      or the widget under a menu bar. */
  datatype Slot = LeftChild | RightChild | Pane(index: nat) | Content

  /** A call of the same handler on a child, with the coordinates passed to it. */
  datatype Visit = Visit(slot: Slot, x: int, y: int)

  /** The Widget a mouse handler returns. */
  datatype Consumer = Self | Nil | Child(visit: Visit)

  /** A SetRect call on a child. */
  datatype Place = Place(slot: Slot, rect: Rect)
}
