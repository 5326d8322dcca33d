/** The `Editor` of main.go: once per frame `Update` routes the mouse and keyboard
    through the root widget, and `Layout` resizes the root when the window changes.
    The root's hover answer, the input edges and the widgets themselves are outside
    this module: a frame is given as data, widgets are known by an identity, and the
    calls `Update` makes on them are recorded in order. */
module App {
  import opened Geometry
  import opened Wrappers

  /** A widget value; two consumers are the same widget when their identities agree. */
  type WidgetId = nat

  /** One frame of input: Escape just pressed, the cursor, the left button's press and
      release edges, and the widget the root's `MouseOver(x, y)` answered (None for nil). */
  datatype Frame = Frame(escape: bool, x: int, y: int, pressed: bool, released: bool, hover: Option<WidgetId>)

  /** A call `Update` makes: `MouseOut` and `TakeKeyboard` on a consumer, the button
      events on the root widget (whose answer is discarded). */
  datatype Call = MouseOut(target: WidgetId) | LMouseDown(x: int, y: int) | LMouseUp(x: int, y: int) | TakeKeyboard(target: WidgetId)

  /** How `Update` ends: the game ended by Escape, the next frame, or a panic from
      calling `TakeKeyboard` on a nil consumer. */
  datatype Status = Ended | Running | NilKeyboardTarget

  /** The calls one non-Escape frame makes, in order, when `last` consumed the previous frame's hover. */
  function FrameCalls(last: Option<WidgetId>, f: Frame): (cs: seq<Call>)
    ensures (exists i :: 0 <= i < |cs| && cs[i].MouseOut?) <==> f.hover != last && last.Some?
    ensures forall i :: 0 <= i < |cs| && cs[i].MouseOut? ==> i == 0 && Some(cs[i].target) == last
    ensures (exists i :: 0 <= i < |cs| && cs[i] == LMouseDown(f.x, f.y)) <==> f.pressed
    ensures (exists i :: 0 <= i < |cs| && cs[i] == LMouseUp(f.x, f.y)) <==> !f.pressed && f.released
    ensures forall i, j :: 0 <= i < |cs| && 0 <= j < |cs| && cs[i].LMouseDown? ==> !cs[j].LMouseUp?
    ensures forall i :: 0 <= i < |cs| && (cs[i].LMouseDown? || cs[i].LMouseUp?) ==> cs[i].x == f.x && cs[i].y == f.y
    ensures (exists i :: 0 <= i < |cs| && cs[i].TakeKeyboard?) <==> f.hover.Some?
    ensures forall i :: 0 <= i < |cs| && cs[i].TakeKeyboard? ==> i == |cs| - 1 && Some(cs[i].target) == f.hover
  {
    var out := if f.hover != last && last.Some? then [MouseOut(last.value)] else [];
    var button := if f.pressed then [LMouseDown(f.x, f.y)] else if f.released then [LMouseUp(f.x, f.y)] else [];
    var keyboard := if f.hover.Some? then [TakeKeyboard(f.hover.value)] else [];
    var cs := out + button + keyboard;
    assert |out| > 0 ==> cs[0] == out[0];
    assert |button| > 0 ==> cs[|out|] == button[0];
    assert |keyboard| > 0 ==> cs[|cs| - 1] == keyboard[0];
    cs
  }

  /** The window size the editor last laid out and the rectangle its root widget holds. */
  datatype Screen = Screen(width: int, height: int, root: Rect)

  /** The root widget fills the window. */
  predicate Fills(s: Screen) {
    s.root == MakeRect(0, 0, s.width, s.height)
  }

  /** `Editor.Layout` as written: the "nothing changed" test compares the new height
      with the stored width, so it skips the resize whenever both new dimensions equal
      the old width. */
  function LayoutAsWritten(s: Screen, w: int, h: int): (r: (Screen, int, int))
    ensures r.1 == w && r.2 == h
    ensures h == s.width && w == s.width ==> r.0 == s
    ensures !(h == s.width && w == s.width) ==> r.0 == Screen(w, h, MakeRect(0, 0, w, h)) && Fills(r.0)
  {
    if h == s.width && w == s.width then (s, w, h)
    else (Screen(w, h, MakeRect(0, 0, w, h)), w, h)
  }

  /** `Editor.Layout` with the test the comment describes: skip only when neither dimension changed. */
  function Layout(s: Screen, w: int, h: int): (r: (Screen, int, int))
    ensures r.1 == w && r.2 == h && r.0.width == w && r.0.height == h
    ensures Fills(s) ==> Fills(r.0)
    ensures Fills(s) ==> (r.0 == s <==> w == s.width && h == s.height)
  {
    if h == s.height && w == s.width then (s, w, h)
    else (Screen(w, h, MakeRect(0, 0, w, h)), w, h)
  }

  /** A window of 600x800 shrunk to 600x600: the written test sees 600 == width twice
      and skips, so the root keeps its 800-pixel height and the stored height stays 800. */
  lemma LayoutAsWrittenMissesResize()
    ensures var s := LayoutAsWritten(Screen(0, 0, ZeroRect), 600, 800).0;
      && Fills(s)
      && var t := LayoutAsWritten(s, 600, 600).0;
      && t.height == 800 && t.root.max.y == 800
      && t != Layout(s, 600, 600).0
      && Layout(s, 600, 600).0.root.max.y == 600
  {
  }

  /** Laying out the same size twice with the corrected test changes nothing the second time. */
  lemma {:induction false} LayoutIdempotent(s: Screen, w: int, h: int)
    requires Fills(s)
    ensures var t := Layout(s, w, h).0; Layout(t, w, h).0 == t
  {
  }

  class Editor {
    var screenWidth: int
    var screenHeight: int
    /** The rectangle last given to the root widget's SetRect. */
    var root: Rect
    var lastMouseConsumer: Option<WidgetId>
    /** The calls made on widgets so far, oldest first. */
    var calls: seq<Call>

    function State(): Screen
      reads this
    {
      Screen(screenWidth, screenHeight, root)
    }

    /** A zero-valued Editor whose root widget holds `root`. */
    constructor (root: Rect)
      ensures State() == Screen(0, 0, root)
      ensures lastMouseConsumer == None && calls == []
    {
      screenWidth := 0;
      screenHeight := 0;
      this.root := root;
      lastMouseConsumer := None;
      calls := [];
    }

    /** `Update`: Escape ends the game before anything else; otherwise the previous
        consumer gets MouseOut when the hover consumer changed, the hover consumer is
        remembered, the root gets LMouseDown on a press or else LMouseUp on a release,
        and the keyboard goes to the hover consumer. */
    method Update(f: Frame) returns (r: Status)
      modifies this`lastMouseConsumer, this`calls
      ensures f.escape ==> r == Ended && lastMouseConsumer == old(lastMouseConsumer) && calls == old(calls)
      ensures !f.escape ==> lastMouseConsumer == f.hover
      ensures !f.escape ==> calls == old(calls) + FrameCalls(old(lastMouseConsumer), f)
      ensures !f.escape ==> (r == NilKeyboardTarget <==> f.hover.None?) && (r == Running <==> f.hover.Some?)
    {
      if f.escape {
        return Ended;
      }
      var consumer := f.hover;
      if consumer != lastMouseConsumer {
        if lastMouseConsumer.Some? {
          calls := calls + [MouseOut(lastMouseConsumer.value)];
        }
      }
      lastMouseConsumer := consumer;
      if f.pressed {
        calls := calls + [LMouseDown(f.x, f.y)];
      } else if f.released {
        calls := calls + [LMouseUp(f.x, f.y)];
      }
      if consumer.None? {
        return NilKeyboardTarget;
      }
      calls := calls + [TakeKeyboard(consumer.value)];
      return Running;
    }

    /** `Layout(outsideWidth, outsideHeight)`, with the source's test. */
    method Layout(outsideWidth: int, outsideHeight: int) returns (w: int, h: int)
      modifies this`screenWidth, this`screenHeight, this`root
      ensures (State(), w, h) == LayoutAsWritten(old(State()), outsideWidth, outsideHeight)
    {
      if outsideHeight == screenWidth && outsideWidth == screenWidth {
        return outsideWidth, outsideHeight;
      }
      var r := MakeRect(0, 0, outsideWidth, outsideHeight);
      screenWidth := outsideWidth;
      screenHeight := outsideHeight;
      root := r;
      return screenWidth, screenHeight;
    }
  }
}
