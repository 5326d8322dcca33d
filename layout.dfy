/** The containers of layout.go: Tabs, HorizontalSplitter and the ColorRect leaf.
    Children are referred to by slot; a nil child is a `false` presence flag. */
module Layout {
  import opened Geometry
  import opened GoStrings
  import opened Widget
  import opened Wrappers
  import Style
  import Util

  /** The index of the last rectangle that contains `p`, or -1 when none does: the
      value left behind by a loop that records every hit. */
  function LastContaining(rects: seq<Rect>, p: Point): (k: int)
    ensures -1 <= k < |rects|
    ensures k >= 0 ==> In(p, rects[k]) && forall j :: k < j < |rects| ==> !In(p, rects[j])
    ensures k == -1 ==> forall j :: 0 <= j < |rects| ==> !In(p, rects[j])
    decreases |rects|
  {
    if |rects| == 0 then -1
    else if In(p, rects[|rects| - 1]) then |rects| - 1
    else LastContaining(rects[..|rects| - 1], p)
  }

  /** The index a hit loop leaves in a field that held `current` before. */
  function HitOr(rects: seq<Rect>, p: Point, current: int): int {
    var k := LastContaining(rects, p);
    if k >= 0 then k else current
  }

  /** Scans `rects` in order and returns the index of the last hit, `current` if none. */
  method ScanHits(rects: seq<Rect>, p: Point, current: int) returns (k: int)
    ensures k == HitOr(rects, p, current)
  {
    k := current;
    var i := 0;
    while i < |rects|
      invariant 0 <= i <= |rects|
      invariant k == HitOr(rects[..i], p, current)
    {
      assert rects[..i + 1][..i] == rects[..i];
      if In(p, rects[i]) {
        k := i;
      }
      i := i + 1;
    }
    assert rects[..i] == rects;
  }

  /** The header rectangle of a tab whose title is `w` pixels wide, at `start`. */
  function HeaderRect(start: Point, w: nat): (r: Rect)
    ensures r.min == start
    ensures Dx(r) == w + 2 * Style.TabXPadding && Dy(r) == Style.TabHeaderHeight
  {
    Translate(MakeRect(0, 0, w + 2 * Style.TabXPadding, Style.TabHeaderHeight), start)
  }

  /** The pane a body event goes to: the current pane, or no consumer when it is nil. */
  function BodyTarget(panes: seq<bool>, current: int, x: int, y: int): Consumer
    requires 0 <= current < |panes|
  {
    if panes[current] then Child(Visit(Pane(current), x, y)) else Nil
  }

  /** What `Tabs.LMouseUp` returns as written: the header test compares `x`. */
  function ReleaseTargetAsWritten(r: Rect, tabHeight: int, panes: seq<bool>, current: int, x: int, y: int): Consumer
    requires x >= r.min.x + tabHeight ==> 0 <= current < |panes|
  {
    if x < r.min.x + tabHeight then Self else BodyTarget(panes, current, x, y)
  }

  /** What `Tabs.LMouseUp` evidently means: the same header band as a press. */
  function ReleaseTarget(r: Rect, tabHeight: int, panes: seq<bool>, current: int, x: int, y: int): (c: Consumer)
    requires y >= r.min.y + tabHeight ==> 0 <= current < |panes|
    ensures c == Self <==> y < r.min.y + tabHeight
    ensures y >= r.min.y + tabHeight ==> c == BodyTarget(panes, current, x, y)
  {
    if y < r.min.y + tabHeight then Self else BodyTarget(panes, current, x, y)
  }

  /** A release in the body near the left edge is kept by the tab bar, and a release
      on a header right of `tabHeight` pixels goes to the pane. */
  lemma ReleaseAsWrittenMisroutes()
    ensures ReleaseTargetAsWritten(Rect(Origin, Point(800, 600)), 26, [true], 0, 10, 300) == Self
    ensures ReleaseTarget(Rect(Origin, Point(800, 600)), 26, [true], 0, 10, 300) == Child(Visit(Pane(0), 10, 300))
    ensures ReleaseTargetAsWritten(Rect(Origin, Point(800, 600)), 26, [true], 0, 100, 5) == Child(Visit(Pane(0), 100, 5))
    ensures ReleaseTarget(Rect(Origin, Point(800, 600)), 26, [true], 0, 100, 5) == Self
  {
  }

  /** The outcome of the guard in `Tabs.Draw`. */
  datatype DrawOutcome = NoPane | DrawPane(index: nat) | IndexPanic

  /** The guard of `Tabs.Draw` as written: `current > len` lets `current == len`
      through to an out-of-range index. */
  function DrawTargetAsWritten(current: int, panes: seq<bool>): DrawOutcome {
    if current < 0 || current > |panes| then NoPane
    else if current == |panes| then IndexPanic
    else if !panes[current] then NoPane
    else DrawPane(current)
  }

  /** The guard with `>=`. */
  function DrawTarget(current: int, panes: seq<bool>): (t: DrawOutcome)
    ensures t != IndexPanic
    ensures t.DrawPane? <==> 0 <= current < |panes| && panes[current]
    ensures t.DrawPane? ==> t.index == current
  {
    if current < 0 || current >= |panes| || !panes[current] then NoPane else DrawPane(current)
  }

  /** The two guards differ exactly when the current tab is one past the last pane. */
  lemma DrawGuardOffByOne(current: int, panes: seq<bool>)
    ensures DrawTargetAsWritten(current, panes) == IndexPanic <==> current == |panes|
    ensures current != |panes| ==> DrawTargetAsWritten(current, panes) == DrawTarget(current, panes)
  {
  }

  /** A tab container with no panes and tab 0 selected, as Go's zero value has it. */
  lemma EmptyTabsPanicOnDraw()
    ensures DrawTargetAsWritten(0, []) == IndexPanic
    ensures DrawTarget(0, []) == NoPane
  {
  }

  /** `Tabs`: one header per pane over the pane area; `panes[i]` says whether pane i is non-nil. */
  class Tabs {
    var rect: Rect
    var titles: seq<Str>
    var panes: seq<bool>
    var headerRects: seq<Rect>
    var currentTab: int
    var tabHeight: int
    var currentHovered: int

    constructor (titles: seq<Str>, panes: seq<bool>, tabHeight: int)
      ensures this.titles == titles && this.panes == panes && this.tabHeight == tabHeight
      ensures rect == ZeroRect && headerRects == [] && currentTab == 0 && currentHovered == -1
    {
      rect := ZeroRect;
      this.titles := titles;
      this.panes := panes;
      headerRects := [];
      currentTab := 0;
      this.tabHeight := tabHeight;
      currentHovered := -1;
    }

    predicate InHeaderBand(y: int)
      reads this
    {
      y < rect.min.y + tabHeight
    }

    method MouseOut()
      modifies this`currentHovered
      ensures currentHovered == -1
    {
      currentHovered := -1;
    }

    /** A press in the header band selects the last header under the mouse (the
        tab is kept when there is none) and is consumed; below it goes to the
        current pane. */
    method LMouseDown(x: int, y: int) returns (c: Consumer)
      requires !InHeaderBand(y) ==> 0 <= currentTab < |panes|
      modifies this`currentTab
      ensures InHeaderBand(y) ==> c == Self && currentTab == HitOr(headerRects, Point(x, y), old(currentTab))
      ensures !InHeaderBand(y) ==> currentTab == old(currentTab) && c == BodyTarget(panes, currentTab, x, y)
    {
      if y < rect.min.y + tabHeight {
        currentTab := ScanHits(headerRects, Point(x, y), currentTab);
        return Self;
      }
      if panes[currentTab] {
        return Child(Visit(Pane(currentTab), x, y));
      }
      return Nil;
    }

    /** The release keeps the source's test of `x` against the header height. */
    method LMouseUp(x: int, y: int) returns (c: Consumer)
      requires x >= rect.min.x + tabHeight ==> 0 <= currentTab < |panes|
      ensures c == ReleaseTargetAsWritten(rect, tabHeight, panes, currentTab, x, y)
    {
      if x < rect.min.x + tabHeight {
        return Self;
      }
      if panes[currentTab] {
        return Child(Visit(Pane(currentTab), x, y));
      }
      return Nil;
    }

    /** Hovering the header band marks the last header under the mouse and never
        switches tabs; below it the current pane is asked. */
    method MouseOver(x: int, y: int) returns (c: Consumer)
      requires !InHeaderBand(y) ==> 0 <= currentTab < |panes|
      modifies this`currentHovered
      ensures InHeaderBand(y) ==> c == Self && currentHovered == HitOr(headerRects, Point(x, y), old(currentHovered))
      ensures !InHeaderBand(y) ==> currentHovered == old(currentHovered) && c == BodyTarget(panes, currentTab, x, y)
    {
      if y < rect.min.y + tabHeight {
        currentHovered := ScanHits(headerRects, Point(x, y), currentHovered);
        return Self;
      }
      if panes[currentTab] {
        return Child(Visit(Pane(currentTab), x, y));
      }
      return Nil;
    }

    /** Packs one header per pane left to right from the top-left corner, each as
        wide as its title plus padding, and gives every non-nil pane the area below
        the header band. `textWidth` is the width of a title in the main font. */
    method SetRect(r: Rect, textWidth: Str -> nat) returns (places: seq<Place>)
      requires |titles| >= |panes|
      modifies this`rect, this`headerRects
      ensures rect == r
      ensures |headerRects| == |panes|
      ensures forall i :: 0 <= i < |headerRects| ==>
        headerRects[i].min.y == r.min.y && Dy(headerRects[i]) == Style.TabHeaderHeight &&
        Dx(headerRects[i]) == textWidth(titles[i]) + 2 * Style.TabXPadding
      ensures |headerRects| > 0 ==> headerRects[0].min.x == r.min.x
      ensures forall i :: 0 < i < |headerRects| ==> headerRects[i].min.x == headerRects[i - 1].max.x
      ensures forall k :: 0 <= k < |places| ==>
        places[k].slot.Pane? && places[k].rect == Rect(Point(r.min.x, r.min.y + tabHeight), r.max)
      ensures forall i :: 0 <= i < |panes| ==> (Place(Pane(i), Rect(Point(r.min.x, r.min.y + tabHeight), r.max)) in places <==> panes[i])
      ensures forall k, l :: 0 <= k < l < |places| ==> places[k].slot.index < places[l].slot.index
    {
      rect := r;
      var headers: seq<Rect> := [];
      var start := r.min;
      var i := 0;
      while i < |panes|
        invariant 0 <= i <= |panes| && |headers| == i
        invariant start.y == r.min.y
        invariant i == 0 ==> start == r.min
        invariant i > 0 ==> start.x == headers[i - 1].max.x
        invariant forall j :: 0 <= j < i ==>
          headers[j].min.y == r.min.y && Dy(headers[j]) == Style.TabHeaderHeight &&
          Dx(headers[j]) == textWidth(titles[j]) + 2 * Style.TabXPadding
        invariant i > 0 ==> headers[0].min.x == r.min.x
        invariant forall j :: 0 < j < i ==> headers[j].min.x == headers[j - 1].max.x
      {
        var tabRect := HeaderRect(start, textWidth(titles[i]));
        headers := headers + [tabRect];
        start := AddPoints(start, Point(Dx(tabRect), 0));
        i := i + 1;
      }
      headerRects := headers;

      var paneRect := Rect(Point(r.min.x, r.min.y + tabHeight), r.max);
      places := [];
      i := 0;
      while i < |panes|
        invariant 0 <= i <= |panes|
        invariant forall k :: 0 <= k < |places| ==>
          places[k].slot.Pane? && places[k].slot.index < i && places[k].rect == paneRect
        invariant forall j :: 0 <= j < i ==> (Place(Pane(j), paneRect) in places <==> panes[j])
        invariant forall k, l :: 0 <= k < l < |places| ==> places[k].slot.index < places[l].slot.index
      {
        if panes[i] {
          places := places + [Place(Pane(i), paneRect)];
        }
        i := i + 1;
      }
    }
  }

  /** The divider position after a drag to `x`: kept 5 pixels inside the rectangle,
      the left bound winning when the rectangle is narrower than 10 pixels. */
  function ClampDrag(x: int, r: Rect): (s: int)
    ensures s >= r.min.x + 5 || s == r.max.x - 5
    ensures r.min.x + 10 <= r.max.x ==> r.min.x + 5 <= s <= r.max.x - 5
    ensures r.min.x + 5 <= x <= r.max.x - 5 ==> s == x
    ensures x < r.min.x + 5 ==> s == r.min.x + 5
    ensures x >= r.min.x + 5 && x > r.max.x - 5 ==> s == r.max.x - 5
  {
    if x < r.min.x + 5 then r.min.x + 5
    else if x > r.max.x - 5 then r.max.x - 5
    else x
  }

  /** Clamping twice is clamping once, for rectangles at least 10 pixels wide. */
  lemma ClampDragIdempotent(x: int, r: Rect)
    requires r.min.x + 10 <= r.max.x
    ensures ClampDrag(ClampDrag(x, r), r) == ClampDrag(x, r)
  {
  }

  /** The left and right child rectangles for a divider `split` pixels from the left edge. */
  function LeftRect(r: Rect, split: int): Rect {
    MakeRect(r.min.x, r.min.y, r.min.x + split, r.max.y)
  }

  function RightRect(r: Rect, split: int): Rect {
    MakeRect(r.min.x + split, r.min.y, r.max.x, r.max.y)
  }

  /** With the divider inside a well-formed rectangle, the two children tile it:
      they meet at the divider, span the full height, and every point of the
      rectangle lies in exactly one of them. */
  lemma SplitTiles(r: Rect, split: int)
    requires WellFormed(r) && 0 <= split <= Dx(r)
    ensures LeftRect(r, split).min == r.min && RightRect(r, split).max == r.max
    ensures LeftRect(r, split).max.x == RightRect(r, split).min.x == r.min.x + split
    ensures Dx(LeftRect(r, split)) + Dx(RightRect(r, split)) == Dx(r)
    ensures forall p :: In(p, r) <==> In(p, LeftRect(r, split)) || In(p, RightRect(r, split))
    ensures forall p :: !(In(p, LeftRect(r, split)) && In(p, RightRect(r, split)))
  {
  }

  /** `HorizontalSplitter`: a left and a right child separated by a draggable
      divider `splitX` pixels from the left edge. */
  class HorizontalSplitter {
    var rect: Rect
    var splitX: int
    var hasLeft: bool
    var hasRight: bool
    var dragging: bool
    var borderHalfWidth: int
    var borderHovered: bool

    constructor (splitX: int, hasLeft: bool, hasRight: bool, borderHalfWidth: int)
      ensures this.splitX == splitX && this.hasLeft == hasLeft && this.hasRight == hasRight
      ensures this.borderHalfWidth == borderHalfWidth
      ensures rect == ZeroRect && !dragging && !borderHovered
    {
      rect := ZeroRect;
      this.splitX := splitX;
      this.hasLeft := hasLeft;
      this.hasRight := hasRight;
      dragging := false;
      this.borderHalfWidth := borderHalfWidth;
      borderHovered := false;
    }

    /** Losing the mouse changes nothing. */
    method MouseOut()
    {
    }

    /** A release ends a drag and is consumed wherever it happens. Otherwise it goes
        to the side of the divider it falls on (the right child gets `x - splitX`),
        and the splitter keeps it on the border or when that side is nil. */
    method LMouseUp(x: int, y: int) returns (c: Consumer)
      modifies this`dragging
      ensures !dragging
      ensures old(dragging) ==> c == Self
      ensures !old(dragging) && x < splitX - borderHalfWidth ==>
        c == (if hasLeft then Child(Visit(LeftChild, x, y)) else Self)
      ensures !old(dragging) && x >= splitX - borderHalfWidth && x > splitX + borderHalfWidth ==>
        c == (if hasRight then Child(Visit(RightChild, x - splitX, y)) else Self)
      ensures !old(dragging) && splitX - borderHalfWidth <= x <= splitX + borderHalfWidth ==> c == Self
    {
      if dragging {
        dragging := false;
      } else if x < splitX - borderHalfWidth {
        if hasLeft {
          return Child(Visit(LeftChild, x, y));
        }
      } else if x > splitX + borderHalfWidth {
        if hasRight {
          return Child(Visit(RightChild, x - splitX, y));
        }
      }
      return Self;
    }

    /** A press strictly inside the border starts a drag and is consumed; a press
        beside it goes to that side, unchanged, when the side is non-nil, and is
        kept by the splitter when that side is nil. */
    method LMouseDown(x: int, y: int) returns (c: Consumer)
      modifies this`dragging
      ensures dragging == (old(dragging) || splitX - borderHalfWidth < x < splitX + borderHalfWidth)
      ensures c == if x < splitX - borderHalfWidth && hasLeft then Child(Visit(LeftChild, x, y))
                   else if x > splitX + borderHalfWidth && hasRight then Child(Visit(RightChild, x, y))
                   else Self
    {
      if x > splitX - borderHalfWidth && x < splitX + borderHalfWidth {
        dragging := true;
      }
      if x < splitX - borderHalfWidth {
        if hasLeft {
          return Child(Visit(LeftChild, x, y));
        }
      }
      if x > splitX + borderHalfWidth {
        if hasRight {
          return Child(Visit(RightChild, x, y));
        }
      }
      return Self;
    }

    /** Stores the rectangle; unless the old width was 0, rescales the divider with
        `rescale(split, oldWidth, newWidth)` and places the children on either side. */
    method SetRect(r: Rect, rescale: (int, int, int) -> int) returns (places: seq<Place>)
      modifies this`rect, this`splitX
      ensures rect == r
      ensures Dx(old(rect)) == 0 ==> splitX == old(splitX) && places == []
      ensures Dx(old(rect)) != 0 ==> splitX == rescale(old(splitX), Dx(old(rect)), Dx(r))
      ensures Dx(old(rect)) != 0 ==>
        places == (if hasLeft then [Place(LeftChild, LeftRect(r, splitX))] else []) +
                  (if hasRight then [Place(RightChild, RightRect(r, splitX))] else [])
    {
      var oldWidth := Dx(rect);
      rect := r;
      places := [];
      if oldWidth == 0 {
        return;
      }
      splitX := rescale(splitX, oldWidth, Dx(r));
      var leftRect := MakeRect(rect.min.x, rect.min.y, rect.min.x + splitX, rect.max.y);
      var rightRect := MakeRect(rect.min.x + splitX, rect.min.y, rect.max.x, rect.max.y);
      if hasLeft {
        places := places + [Place(LeftChild, leftRect)];
      }
      if hasRight {
        places := places + [Place(RightChild, rightRect)];
      }
    }

    /** Hover goes to the side of the divider (in screen coordinates) or marks the
        border as hovered; `visited` is the child whose MouseOver is called. While
        dragging, that call is still made, then the divider follows the mouse,
        clamped, the children are re-placed and the splitter keeps the hover. */
    method MouseOver(x: int, y: int, rescale: (int, int, int) -> int) returns (c: Consumer, places: seq<Place>, visited: Option<Visit>)
      modifies this`borderHovered, this`splitX, this`rect
      ensures rect == old(rect)
      ensures visited == if x < old(BorderLo()) then (if hasLeft then Some(Visit(LeftChild, x, y)) else None)
                         else if x > old(BorderHi()) && hasRight then Some(Visit(RightChild, x, y))
                         else None
      ensures !dragging && visited.Some? ==> c == Child(visited.value)
      ensures borderHovered <==> old(BorderLo()) <= x <= old(BorderHi())
      ensures !dragging ==> splitX == old(splitX) && places == []
      ensures !dragging && x < old(BorderLo()) ==>
        c == (if hasLeft then Child(Visit(LeftChild, x, y)) else Nil)
      ensures !dragging && old(BorderLo()) <= x && x > old(BorderHi()) ==>
        c == (if hasRight then Child(Visit(RightChild, x, y)) else Nil)
      ensures !dragging && old(BorderLo()) <= x <= old(BorderHi()) ==> c == Self
      ensures dragging ==> c == Self
      ensures dragging && Dx(rect) == 0 ==> splitX == ClampDrag(x, rect) && places == []
      ensures dragging && Dx(rect) != 0 ==>
        splitX == rescale(ClampDrag(x, rect), Dx(rect), Dx(rect)) &&
        places == (if hasLeft then [Place(LeftChild, LeftRect(rect, splitX))] else []) +
                  (if hasRight then [Place(RightChild, RightRect(rect, splitX))] else [])
    {
      var divider := splitX + rect.min.x;
      c := Nil;
      places := [];
      visited := None;
      if x < divider - borderHalfWidth {
        borderHovered := false;
        if hasLeft {
          visited := Some(Visit(LeftChild, x, y));
          c := Child(visited.value);
        }
      } else if x > divider + borderHalfWidth {
        borderHovered := false;
        if hasRight {
          visited := Some(Visit(RightChild, x, y));
          c := Child(visited.value);
        }
      } else {
        borderHovered := true;
        c := Self;
      }
      if dragging {
        splitX := ClampDrag(x, rect);
        places := SetRect(rect, rescale);
        c := Self;
      }
    }

    /** The screen x range of the border around the divider. */
    function BorderLo(): int
      reads this
    {
      splitX + rect.min.x - borderHalfWidth
    }

    function BorderHi(): int
      reads this
    {
      splitX + rect.min.x + borderHalfWidth
    }
  }

  /** `ColorRect`: a leaf that consumes every event and only stores its rectangle. */
  class ColorRect {
    var rect: Rect
    var color: Util.RGBA

    constructor (color: Util.RGBA)
      ensures this.color == color && rect == ZeroRect
    {
      rect := ZeroRect;
      this.color := color;
    }

    method MouseOut()
    {
    }

    method LMouseDown(x: int, y: int) returns (c: Consumer)
      ensures c == Self
    {
      return Self;
    }

    method LMouseUp(x: int, y: int) returns (c: Consumer)
      ensures c == Self
    {
      return Self;
    }

    method MouseOver(x: int, y: int) returns (c: Consumer)
      ensures c == Self
    {
      return Self;
    }

    method SetRect(r: Rect)
      modifies this`rect
      ensures rect == r
    {
      rect := r;
    }
  }
}
