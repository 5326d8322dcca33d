/** The menus of menubar.go: key shortcuts as text, the nested DummyMenuItem
    dropdowns and the MenuBar that sits above another widget. */
module Menus {
  import opened Geometry
  import opened GoStrings
  import opened Widget
  import Style
  import Util
  import Layout

  /** An ebiten key code. */
  type KeyCode = nat

  /** `KeyShortcut`: modifier keys and a key. */
  datatype KeyShortcut = KeyShortcut(mods: seq<KeyCode>, key: KeyCode)

  const Plus: Str := " + "

  /** The text of a shortcut, built from the last modifier back: the text without
      that modifier, its key name cut off, then the modifier's name, " + " and the
      key's name. An independent reference for the loop of `ShortcutString`.
      `name` stands for ebiten's `Key.String`. */
  function ShortcutText(mods: seq<KeyCode>, key: KeyCode, name: KeyCode -> Str): Str
    decreases |mods|
  {
    if |mods| == 0 then name(key)
    else
      var n := |mods| - 1;
      var t := ShortcutText(mods[..n], key, name);
      t[..|t| - |name(key)|] + name(mods[n]) + Plus + name(key)
  }

  /** The modifiers' names, each followed by " + ". */
  function ModsText(mods: seq<KeyCode>, name: KeyCode -> Str): Str
    decreases |mods|
  {
    if |mods| == 0 then [] else name(mods[0]) + Plus + ModsText(mods[1..], name)
  }

  /** The shortcut text is the modifiers' text followed by the key's name. */
  lemma {:induction false} ShortcutTextIsModsThenKey(mods: seq<KeyCode>, key: KeyCode, name: KeyCode -> Str)
    ensures ShortcutText(mods, key, name) == ModsText(mods, name) + name(key)
    decreases |mods|
  {
    if |mods| > 0 {
      var n := |mods| - 1;
      ShortcutTextIsModsThenKey(mods[..n], key, name);
      ModsTextAppend(mods[..n], mods[n], name);
      assert mods[..n] + [mods[n]] == mods;
      var t := ShortcutText(mods[..n], key, name);
      assert t[..|t| - |name(key)|] == ModsText(mods[..n], name);
    }
  }

  lemma {:induction false} ModsTextAppend(mods: seq<KeyCode>, m: KeyCode, name: KeyCode -> Str)
    ensures ModsText(mods + [m], name) == ModsText(mods, name) + name(m) + Plus
    decreases |mods|
  {
    if |mods| > 0 {
      assert (mods + [m])[1..] == mods[1..] + [m];
      ModsTextAppend(mods[1..], m, name);
    } else {
      assert ModsText([m], name) == name(m) + Plus + ModsText([], name);
    }
  }

  /** `KeyShortcut.String`. */
  method ShortcutString(ks: KeyShortcut, name: KeyCode -> Str) returns (s: Str)
    ensures s == ModsText(ks.mods, name) + name(ks.key)
  {
    s := [];
    var i := 0;
    while i < |ks.mods|
      invariant 0 <= i <= |ks.mods|
      invariant s + ModsText(ks.mods[i..], name) == ModsText(ks.mods, name)
    {
      assert ks.mods[i..][1..] == ks.mods[i + 1..];
      s := s + name(ks.mods[i]);
      s := s + Plus;
      i := i + 1;
    }
    s := s + name(ks.key);
  }

  /** The bounds of a text in the menu font: width and height. */
  datatype Size = Size(w: nat, h: nat)

  /** The widest of the texts. */
  function Widest(names: seq<Str>, measure: Str -> Size): (m: nat)
    ensures forall i :: 0 <= i < |names| ==> measure(names[i]).w <= m
    ensures |names| > 0 ==> exists i :: 0 <= i < |names| && measure(names[i]).w == m
    ensures |names| == 0 ==> m == 0
    decreases |names|
  {
    if |names| == 0 then 0
    else Util.Max(Widest(names[..|names| - 1], measure), measure(names[|names| - 1]).w)
  }

  /** The top of each item's text box below the menu's top edge: a padding above
      each item and the heights of the items before it. */
  function Tops(names: seq<Str>, measure: Str -> Size): (ts: seq<int>)
    ensures |ts| == |names|
    decreases |names|
  {
    if |names| == 0 then []
    else
      var init := names[..|names| - 1];
      Tops(init, measure) + [HeightNeeded(init, measure)]
  }

  /** The height of the whole menu: the items' heights, each with a padding, plus one more padding. */
  function HeightNeeded(names: seq<Str>, measure: Str -> Size): (h: int)
    ensures h >= Style.MenuYPadding
    decreases |names|
  {
    if |names| == 0 then Style.MenuYPadding
    else HeightNeeded(names[..|names| - 1], measure) + measure(names[|names| - 1]).h + Style.MenuYPadding
  }

  /** Item tops strictly increase, by each item's height plus a padding. */
  lemma {:induction false} TopsIncrease(names: seq<Str>, measure: Str -> Size)
    ensures |names| > 0 ==> Tops(names, measure)[0] == Style.MenuYPadding
    ensures forall i :: 0 < i < |names| ==>
      Tops(names, measure)[i] == Tops(names, measure)[i - 1] + measure(names[i - 1]).h + Style.MenuYPadding
    ensures |names| > 0 ==>
      HeightNeeded(names, measure) == Tops(names, measure)[|names| - 1] + measure(names[|names| - 1]).h + Style.MenuYPadding
    decreases |names|
  {
    if |names| > 0 {
      var init := names[..|names| - 1];
      TopsIncrease(init, measure);
      forall i | 0 < i < |names|
        ensures Tops(names, measure)[i] == Tops(names, measure)[i - 1] + measure(names[i - 1]).h + Style.MenuYPadding
      {
        assert names[i - 1] == init[i - 1];
        if i < |names| - 1 {
          assert init[i] == names[i];
        }
      }
    }
  }

  /** The hover rectangle of an item whose text box starts at `top`; like the
      source, it does not add the menu's own top edge. */
  function ItemRect(topleft: Point, top: int, width: int, ascent: int): Rect {
    MakeRect(topleft.x, top + Style.MenuYPadding + ascent, topleft.x + width,
             top + Style.MenuFontSize + Style.MenuYPadding + Style.MenuYPadding + ascent)
  }

  /** The box a menu with these items occupies, at `topleft`. */
  function OwnBox(topleft: Point, names: seq<Str>, measure: Str -> Size): (r: Rect)
    ensures r.min == topleft
    ensures Dx(r) == Widest(names, measure) + 2 * Style.MenuBarXPadding
    ensures Dy(r) == HeightNeeded(names, measure)
  {
    MakeRect(topleft.x, topleft.y,
             topleft.x + Widest(names, measure) + 2 * Style.MenuBarXPadding,
             topleft.y + HeightNeeded(names, measure))
  }

  /** The width SpaceUsed records for a menu with these items: the widest text plus padding. */
  function MenuWidth(names: seq<Str>, measure: Str -> Size): int {
    Widest(names, measure) + 2 * Style.MenuBarXPadding
  }

  /** The item rectangles SpaceUsed lays out for a menu with these items opened at `topleft`. */
  function ItemRects(topleft: Point, names: seq<Str>, measure: Str -> Size, ascent: int): (rs: seq<Rect>)
    ensures |rs| == |names|
    ensures forall i :: 0 <= i < |names| ==>
      rs[i] == ItemRect(topleft, Tops(names, measure)[i], MenuWidth(names, measure), ascent)
  {
    seq(|names|, i requires 0 <= i < |names| => ItemRect(topleft, Tops(names, measure)[i], MenuWidth(names, measure), ascent))
  }

  /** The rectangles any point of a menu can be found in. */
  predicate InAny(rs: seq<Rect>, p: Point) {
    exists i :: 0 <= i < |rs| && In(p, rs[i])
  }

  /** The scan of MouseOver over the open menus' rectangles: whether any holds `p`. */
  method AnyHit(rs: seq<Rect>, p: Point) returns (hit: bool)
    ensures hit <==> InAny(rs, p)
  {
    var i := 0;
    while i < |rs|
      invariant 0 <= i <= |rs|
      invariant forall j :: 0 <= j < i ==> !In(p, rs[j])
    {
      if In(p, rs[i]) {
        return true;
      }
      i := i + 1;
    }
    return false;
  }

  /** The items and every item below them. */
  ghost function ReprOf(items: seq<DummyMenuItem>): set<DummyMenuItem>
    decreases |items|
  {
    if |items| == 0 then {} else ReprOf(items[..|items| - 1]) + items[|items| - 1].Repr
  }

  lemma {:induction false} ReprOfContains(items: seq<DummyMenuItem>, i: nat)
    requires i < |items|
    ensures items[i].Repr <= ReprOf(items)
    decreases |items|
  {
    if i < |items| - 1 {
      ReprOfContains(items[..|items| - 1], i);
      assert items[..|items| - 1][i] == items[i];
    }
  }

  ghost function MaxDepth(items: seq<DummyMenuItem>): (d: nat)
    ensures forall i :: 0 <= i < |items| ==> items[i].depth <= d
    decreases |items|
  {
    if |items| == 0 then 0 else Util.Max(MaxDepth(items[..|items| - 1]), items[|items| - 1].depth)
  }

  /** The first loop of SpaceUsed: the widest text, the total height and each item's top. */
  method MeasureItems(kids: seq<DummyMenuItem>, measure: Str -> Size) returns (biggest: int, heightNeeded: int, tops: seq<int>)
    ensures biggest == Widest(NamesOf(kids), measure)
    ensures heightNeeded == HeightNeeded(NamesOf(kids), measure)
    ensures tops == Tops(NamesOf(kids), measure)
  {
    ghost var names := NamesOf(kids);
    biggest := 0;
    heightNeeded := Style.MenuYPadding;
    tops := [];
    var i := 0;
    while i < |kids|
      invariant 0 <= i <= |kids|
      invariant biggest == Widest(names[..i], measure)
      invariant heightNeeded == HeightNeeded(names[..i], measure)
      invariant tops == Tops(names[..i], measure)
    {
      assert names[..i + 1][..i] == names[..i];
      tops := tops + [heightNeeded];
      var textR := measure(kids[i].txt);
      biggest := Util.Max(biggest, textR.w);
      heightNeeded := heightNeeded + textR.h + Style.MenuYPadding;
      i := i + 1;
    }
    assert names[..i] == names;
  }

  /** The second loop of SpaceUsed: one hover rectangle per item top. */
  method LayItems(topleft: Point, tops: seq<int>, width: int, ascent: int) returns (rs: seq<Rect>)
    ensures |rs| == |tops|
    ensures forall j :: 0 <= j < |tops| ==> rs[j] == ItemRect(topleft, tops[j], width, ascent)
  {
    rs := [];
    var i := 0;
    while i < |tops|
      invariant 0 <= i <= |tops| && |rs| == i
      invariant forall j :: 0 <= j < i ==> rs[j] == ItemRect(topleft, tops[j], width, ascent)
    {
      rs := rs + [ItemRect(topleft, tops[i], width, ascent)];
      i := i + 1;
    }
  }

  /** The two loops of SpaceUsed: the menu width, the item rectangles and the menu's box. */
  method OwnLayout(kids: seq<DummyMenuItem>, topleft: Point, measure: Str -> Size, ascent: int)
    returns (width: int, rs: seq<Rect>, box: Rect)
    ensures width == MenuWidth(NamesOf(kids), measure)
    ensures rs == ItemRects(topleft, NamesOf(kids), measure, ascent)
    ensures box == OwnBox(topleft, NamesOf(kids), measure)
  {
    var biggest, heightNeeded, tops := MeasureItems(kids, measure);
    width := biggest + 2 * Style.MenuBarXPadding;
    rs := LayItems(topleft, tops, width, ascent);
    box := MakeRect(topleft.x, topleft.y, topleft.x + width, topleft.y + heightNeeded);
  }

  function NamesOf(items: seq<DummyMenuItem>): (ns: seq<Str>)
    ensures |ns| == |items|
    ensures forall i :: 0 <= i < |items| ==> ns[i] == items[i].txt
  {
    seq(|items|, i requires 0 <= i < |items| => items[i].txt)
  }

  /** `DummyMenuItem`: a labelled entry whose children form its dropdown. */
  class DummyMenuItem {
    const txt: Str
    const kids: seq<DummyMenuItem>
    var currentlyHovered: int
    var width: int
    var itemRects: seq<Rect>
    var shortcut: KeyShortcut
    /** This item and every item below it. */
    ghost const Repr: set<DummyMenuItem>
    ghost const depth: nat

    /** The children are strictly lower in the tree and their items are this one's. */
    ghost predicate Valid()
      decreases depth
    {
      this in Repr &&
      forall i :: 0 <= i < |kids| ==>
        kids[i].depth < depth && kids[i].Repr <= Repr && this !in kids[i].Repr && kids[i].Valid()
    }

    /** The hovered index can index the children and there are no more item
        rectangles than children, as the source keeps them. */
    predicate Consistent()
      reads this
    {
      -1 <= currentlyHovered < |kids| && |itemRects| <= |kids|
    }

    ghost predicate AllConsistent()
      reads Repr
    {
      forall o :: o in Repr ==> o.Consistent()
    }

    function Names(): seq<Str> {
      NamesOf(kids)
    }

    /** `NewMenuItem`: nothing hovered, no width, no shortcut. */
    constructor (name: Str, children: seq<DummyMenuItem>)
      requires forall i :: 0 <= i < |children| ==> children[i].Valid()
      ensures Valid() && txt == name && kids == children
      ensures Repr == {this} + ReprOf(children)
      ensures currentlyHovered == -1 && width == 0 && itemRects == [] && shortcut == KeyShortcut([], 0)
    {
      txt := name;
      kids := children;
      currentlyHovered := -1;
      width := 0;
      itemRects := [];
      shortcut := KeyShortcut([], 0);
      Repr := {this} + ReprOf(children);
      depth := 1 + MaxDepth(children);
      new;
      forall i | 0 <= i < |children|
        ensures children[i].Repr <= Repr
      {
        ReprOfContains(children, i);
      }
    }

    /** `Text`. */
    function Text(): (t: Str)
      ensures t == txt
    {
      txt
    }

    /** `Children` always reports no children, whatever the item holds. */
    function Children(): (cs: seq<DummyMenuItem>)
      ensures |cs| == 0
    {
      []
    }

    function Shortcut(): (ks: KeyShortcut)
      reads this
      ensures ks == shortcut
    {
      shortcut
    }

    /** The rectangles SpaceUsed reports for this menu opened at `topleft`: the open
        submenu's rectangles, then this menu's own box; nothing without children. */
    ghost function Space(topleft: Point, measure: Str -> Size, ascent: int): (rs: seq<Rect>)
      requires Valid()
      reads Repr
      ensures |kids| == 0 ==> rs == []
      ensures |kids| > 0 ==> |rs| > 0 && rs[|rs| - 1] == OwnBox(topleft, Names(), measure)
      ensures |kids| > 0 && !(0 <= currentlyHovered < |kids|) ==> rs == [OwnBox(topleft, Names(), measure)]
      decreases depth
    {
      if |kids| == 0 then []
      else
        var own := OwnBox(topleft, Names(), measure);
        var h := currentlyHovered;
        if 0 <= h < |kids| then
          kids[h].Space(SubmenuCorner(topleft, h, measure), measure, ascent) + [own]
        else [own]
    }

    /** Where the hovered child's submenu opens: one pixel left of this menu's right
        edge, one item height per item above it. */
    function SubmenuCorner(topleft: Point, h: int, measure: Str -> Size): Point {
      AddPoints(Point(Widest(Names(), measure) + 2 * Style.MenuBarXPadding - 1,
                      h * (Style.MenuFontSize + Style.MenuYPadding)), topleft)
    }

    /** The hovered chain: this item, then the hovered child's chain. */
    ghost function HoverChain(): (c: set<DummyMenuItem>)
      requires Valid()
      reads Repr
      ensures this in c && c <= Repr
      decreases depth
    {
      if 0 <= currentlyHovered < |kids| then {this} + kids[currentlyHovered].HoverChain() else {this}
    }

    /** Where SpaceUsed at `topleft` lays out each item of the hovered chain that has
        children: this item at `topleft`, the hovered child at its submenu corner, and so on. */
    ghost function Corners(topleft: Point, measure: Str -> Size): (m: map<DummyMenuItem, Point>)
      requires Valid()
      reads Repr
      ensures m.Keys <= Repr
      ensures |kids| == 0 ==> m == map[]
      ensures |kids| > 0 ==> m == ChildCorners(topleft, measure)[this := topleft]
      decreases depth, 1
    {
      if |kids| == 0 then map[] else ChildCorners(topleft, measure)[this := topleft]
    }

    /** The corners of the hovered child's chain, when a child is hovered. */
    ghost function ChildCorners(topleft: Point, measure: Str -> Size): (m: map<DummyMenuItem, Point>)
      requires Valid()
      reads Repr
      ensures m.Keys <= Repr - {this}
      decreases depth, 0
    {
      if 0 <= currentlyHovered < |kids| then
        kids[currentlyHovered].Corners(SubmenuCorner(topleft, currentlyHovered, measure), measure)
      else map[]
    }

    /** Marks the last item rectangle under the mouse as hovered (an item stays
        hovered when the mouse leaves) and passes the hover on to that child: every
        item of the new hovered chain takes the last of its own rectangles under the
        mouse, and every other item keeps its hovered index. */
    method MouseOver(x: int, y: int)
      requires Valid() && AllConsistent()
      modifies Repr`currentlyHovered
      ensures AllConsistent()
      ensures currentlyHovered == Layout.HitOr(itemRects, Point(x, y), old(currentlyHovered))
      ensures old(currentlyHovered) != -1 ==> currentlyHovered != -1
      ensures forall o :: o in HoverChain() ==>
        o.currentlyHovered == Layout.HitOr(o.itemRects, Point(x, y), old(o.currentlyHovered))
      ensures forall o :: o in Repr && o !in HoverChain() ==> o.currentlyHovered == old(o.currentlyHovered)
      decreases depth
    {
      assert Consistent();
      currentlyHovered := Layout.ScanHits(itemRects, Point(x, y), currentlyHovered);
      if currentlyHovered != -1 {
        var kid := kids[currentlyHovered];
        assert kid.Repr <= Repr && this !in kid.Repr;
        kid.MouseOver(x, y);
      }
    }

    /** `SpaceUsed`: lays out the item rectangles, records the menu width, and
        returns the rectangles of the open submenu chain followed by this menu's box. */
    method SpaceUsed(topleft: Point, measure: Str -> Size, ascent: int) returns (rects: seq<Rect>)
      requires Valid() && AllConsistent()
      modifies Repr`width, Repr`itemRects
      ensures AllConsistent()
      ensures rects == old(Space(topleft, measure, ascent)) == Space(topleft, measure, ascent)
      ensures forall o :: o in Repr ==> o.currentlyHovered == old(o.currentlyHovered)
      ensures |kids| > 0 ==> width == MenuWidth(Names(), measure) && itemRects == ItemRects(topleft, Names(), measure, ascent)
      ensures forall o :: o in old(Corners(topleft, measure)) ==>
        o.width == MenuWidth(o.Names(), measure) &&
        o.itemRects == ItemRects(old(Corners(topleft, measure))[o], o.Names(), measure, ascent)
      ensures forall o :: o in Repr && o !in old(Corners(topleft, measure)) ==>
        o.width == old(o.width) && o.itemRects == old(o.itemRects)
      decreases depth, 2
    {
      if |kids| == 0 {
        return [];
      }
      ghost var space := Space(topleft, measure, ascent);
      assert space == (if 0 <= currentlyHovered < |kids|
        then kids[currentlyHovered].Space(SubmenuCorner(topleft, currentlyHovered, measure), measure, ascent)
        else []) + [OwnBox(topleft, Names(), measure)];
      var childRects, box := LayChain(topleft, measure, ascent);
      rects := childRects + [box];
      assert Space(topleft, measure, ascent) == (if 0 <= currentlyHovered < |kids|
        then kids[currentlyHovered].Space(SubmenuCorner(topleft, currentlyHovered, measure), measure, ascent)
        else []) + [OwnBox(topleft, Names(), measure)];
    }

    /** SpaceUsed of a menu with children: the hovered child's chain and this item's
        own width and rectangles, which lie on disjoint items. */
    method LayChain(topleft: Point, measure: Str -> Size, ascent: int) returns (childRects: seq<Rect>, box: Rect)
      requires Valid() && AllConsistent() && |kids| > 0
      modifies Repr`width, Repr`itemRects
      ensures AllConsistent()
      ensures childRects == old(if 0 <= currentlyHovered < |kids|
        then kids[currentlyHovered].Space(SubmenuCorner(topleft, currentlyHovered, measure), measure, ascent)
        else [])
      ensures childRects == (if 0 <= currentlyHovered < |kids|
        then kids[currentlyHovered].Space(SubmenuCorner(topleft, currentlyHovered, measure), measure, ascent)
        else [])
      ensures box == OwnBox(topleft, Names(), measure)
      ensures forall o :: o in Repr ==> o.currentlyHovered == old(o.currentlyHovered)
      ensures width == MenuWidth(Names(), measure) && itemRects == ItemRects(topleft, Names(), measure, ascent)
      ensures forall o :: o in old(Corners(topleft, measure)) ==>
        o.width == MenuWidth(o.Names(), measure) &&
        o.itemRects == ItemRects(old(Corners(topleft, measure))[o], o.Names(), measure, ascent)
      ensures forall o :: o in Repr && o !in old(Corners(topleft, measure)) ==>
        o.width == old(o.width) && o.itemRects == old(o.itemRects)
      decreases depth, 1
    {
      ghost var corners := Corners(topleft, measure);
      ghost var childCorners := ChildCorners(topleft, measure);
      assert corners == childCorners[this := topleft];
      childRects := HoveredSpace(topleft, measure, ascent);
      box := LayOwn(topleft, measure, ascent);
      forall o | o in corners
        ensures o.width == MenuWidth(o.Names(), measure) &&
                o.itemRects == ItemRects(corners[o], o.Names(), measure, ascent)
      {
        if o != this {
          assert o in childCorners && corners[o] == childCorners[o];
        }
      }
    }

    /** The part of SpaceUsed that touches only this item: its width and item
        rectangles; the hovered child's space does not depend on them. */
    method LayOwn(topleft: Point, measure: Str -> Size, ascent: int) returns (box: Rect)
      requires Valid() && |kids| > 0 && -1 <= currentlyHovered < |kids|
      modifies this`width, this`itemRects
      ensures Consistent()
      ensures box == OwnBox(topleft, Names(), measure)
      ensures width == MenuWidth(Names(), measure)
      ensures itemRects == ItemRects(topleft, Names(), measure, ascent)
      ensures 0 <= currentlyHovered ==>
        kids[currentlyHovered].Space(SubmenuCorner(topleft, currentlyHovered, measure), measure, ascent) ==
        old(kids[currentlyHovered].Space(SubmenuCorner(topleft, currentlyHovered, measure), measure, ascent))
    {
      var w, rs, b := OwnLayout(kids, topleft, measure, ascent);
      Store(w, rs, topleft, measure, ascent);
      box := b;
    }

    /** Records a computed width and item rectangles. */
    method Store(w: int, rs: seq<Rect>, ghost topleft: Point, ghost measure: Str -> Size, ghost ascent: int)
      requires Valid() && |rs| <= |kids| && -1 <= currentlyHovered < |kids|
      modifies this`width, this`itemRects
      ensures Consistent() && width == w && itemRects == rs
      ensures 0 <= currentlyHovered ==>
        kids[currentlyHovered].Space(SubmenuCorner(topleft, currentlyHovered, measure), measure, ascent) ==
        old(kids[currentlyHovered].Space(SubmenuCorner(topleft, currentlyHovered, measure), measure, ascent))
    {
      width := w;
      itemRects := rs;
    }

    /** The rectangles of the hovered child's submenu; the child's items do not
        include this one, so this item's fields are left as they are. */
    method HoveredSpace(topleft: Point, measure: Str -> Size, ascent: int) returns (childRects: seq<Rect>)
      requires Valid() && AllConsistent()
      modifies (Repr - {this})`width, (Repr - {this})`itemRects
      ensures AllConsistent()
      ensures childRects == old(if 0 <= currentlyHovered < |kids|
        then kids[currentlyHovered].Space(SubmenuCorner(topleft, currentlyHovered, measure), measure, ascent)
        else [])
      ensures childRects == (if 0 <= currentlyHovered < |kids|
        then kids[currentlyHovered].Space(SubmenuCorner(topleft, currentlyHovered, measure), measure, ascent)
        else [])
      ensures forall o :: o in old(ChildCorners(topleft, measure)) ==>
        o.width == MenuWidth(o.Names(), measure) &&
        o.itemRects == ItemRects(old(ChildCorners(topleft, measure))[o], o.Names(), measure, ascent)
      ensures forall o :: o in Repr && o !in old(ChildCorners(topleft, measure)) ==>
        o.width == old(o.width) && o.itemRects == old(o.itemRects)
      decreases depth, 0
    {
      childRects := [];
      if currentlyHovered >= 0 && currentlyHovered < |kids| {
        var kid := kids[currentlyHovered];
        assert kid.Repr <= Repr - {this};
        childRects := kid.SpaceUsed(SubmenuCorner(topleft, currentlyHovered, measure), measure, ascent);
        forall o | o in Repr
          ensures o.Consistent()
        {
          if o !in kid.Repr {
            assert old(o.Consistent());
          }
        }
      }
    }
  }

  /** `MenuBar`: a row of top-level menus over the widget it applies to
      (`hasChild` says whether that widget is non-nil). */
  class MenuBar {
    var rect: Rect
    var currentlyHovered: int
    var currentlyOpen: int
    var topRects: seq<Rect>
    const items: seq<DummyMenuItem>
    const hasChild: bool
    ghost const Repr: set<DummyMenuItem>

    ghost predicate Valid() {
      forall i :: 0 <= i < |items| ==> items[i].Valid() && items[i].Repr <= Repr
    }

    ghost predicate AllConsistent()
      reads Repr
    {
      forall o :: o in Repr ==> o.Consistent()
    }

    /** `NewMenuBar`: nothing hovered or open. */
    constructor (items: seq<DummyMenuItem>, hasChild: bool)
      requires forall i :: 0 <= i < |items| ==> items[i].Valid()
      ensures Valid() && this.items == items && this.hasChild == hasChild
      ensures currentlyHovered == -1 && currentlyOpen == -1
      ensures rect == ZeroRect && topRects == []
    {
      rect := ZeroRect;
      currentlyHovered := -1;
      currentlyOpen := -1;
      topRects := [];
      this.items := items;
      this.hasChild := hasChild;
      Repr := ReprOf(items);
      new;
      forall i | 0 <= i < |items|
        ensures items[i].Repr <= Repr
      {
        ReprOfContains(items, i);
      }
    }

    /** The bottom edge of the bar, in screen coordinates. */
    function SplitY(): int
      reads this
    {
      rect.min.y + Style.MenuBarHeight
    }

    method MouseOut()
      modifies this`currentlyHovered, this`currentlyOpen
      ensures currentlyHovered == -1 && currentlyOpen == -1
    {
      currentlyHovered := -1;
      currentlyOpen := -1;
    }

    /** A press in the bar opens the last header under the mouse (a press off
        every header leaves the open menu as it is) and is consumed; below the bar
        it goes to the child. */
    method LMouseDown(x: int, y: int) returns (c: Consumer)
      modifies this`currentlyOpen
      ensures y < SplitY() ==> c == Self && currentlyOpen == Layout.HitOr(topRects, Point(x, y), old(currentlyOpen))
      ensures y >= SplitY() ==> currentlyOpen == old(currentlyOpen)
      ensures y >= SplitY() ==> c == (if hasChild then Child(Visit(Content, x, y)) else Nil)
    {
      var splitY := rect.min.y + Style.MenuFontSize + 2 * Style.MenuBarYPadding;
      if y < splitY {
        currentlyOpen := Layout.ScanHits(topRects, Point(x, y), currentlyOpen);
        return Self;
      }
      if hasChild {
        return Child(Visit(Content, x, y));
      }
      return Nil;
    }

    method LMouseUp(x: int, y: int) returns (c: Consumer)
      ensures y < SplitY() ==> c == Self
      ensures y >= SplitY() ==> c == (if hasChild then Child(Visit(Content, x, y)) else Nil)
    {
      var splitY := rect.min.y + Style.MenuFontSize + 2 * Style.MenuBarYPadding;
      if y < splitY {
        return Self;
      }
      if hasChild {
        return Child(Visit(Content, x, y));
      }
      return Nil;
    }

    /** The rectangles of the open menu, opened below its header. */
    ghost function OpenSpace(measure: Str -> Size, ascent: int): seq<Rect>
      requires Valid()
      requires currentlyOpen >= 0 ==> currentlyOpen < |topRects| && currentlyOpen < |items|
      reads this, Repr
    {
      if currentlyOpen >= 0 then
        var r := topRects[currentlyOpen];
        items[currentlyOpen].Space(Point(r.min.x, r.max.y), measure, ascent)
      else []
    }

    /** Where SpaceUsed lays out the open menu's hovered chain. */
    ghost function OpenCorners(measure: Str -> Size): (m: map<DummyMenuItem, Point>)
      requires Valid()
      requires currentlyOpen >= 0 ==> currentlyOpen < |topRects| && currentlyOpen < |items|
      reads this, Repr
      ensures m.Keys <= Repr
    {
      if currentlyOpen >= 0 then
        var r := topRects[currentlyOpen];
        items[currentlyOpen].Corners(Point(r.min.x, r.max.y), measure)
      else map[]
    }

    /** The open menu's hovered chain. */
    ghost function OpenChain(): (c: set<DummyMenuItem>)
      requires Valid()
      requires currentlyOpen < |items|
      reads this, Repr
      ensures c <= Repr
    {
      if currentlyOpen >= 0 then items[currentlyOpen].HoverChain() else {}
    }

    /** In the bar: hovering a header marks it, and switches the open menu to it
        only when some menu is already open. Below the bar: the bar keeps the hover
        when the mouse is over the open menu (which is told about it), otherwise
        the child gets it. */
    method MouseOver(x: int, y: int, measure: Str -> Size, ascent: int) returns (c: Consumer)
      requires Valid() && AllConsistent()
      requires y >= SplitY() && currentlyOpen >= 0 ==> currentlyOpen < |topRects| && currentlyOpen < |items|
      modifies this`currentlyHovered, this`currentlyOpen
      modifies Repr`width, Repr`itemRects, Repr`currentlyHovered
      ensures AllConsistent()
      ensures y < SplitY() ==> c == Self
      ensures y < SplitY() ==> forall o :: o in Repr ==>
        o.width == old(o.width) && o.itemRects == old(o.itemRects) && o.currentlyHovered == old(o.currentlyHovered)
      ensures y < SplitY() ==> currentlyHovered == Layout.HitOr(topRects, Point(x, y), old(currentlyHovered))
      ensures y < SplitY() ==>
        currentlyOpen == (if old(currentlyOpen) == -1 then -1 else Layout.HitOr(topRects, Point(x, y), old(currentlyOpen)))
      ensures y >= SplitY() ==> currentlyHovered == old(currentlyHovered) && currentlyOpen == old(currentlyOpen)
      ensures y >= SplitY() ==>
        (c == Self <==> currentlyOpen >= 0 && InAny(old(OpenSpace(measure, ascent)), Point(x, y)))
      ensures y >= SplitY() && c != Self ==> c == (if hasChild then Child(Visit(Content, x, y)) else Nil)
      ensures y >= SplitY() ==> forall o :: o in old(OpenCorners(measure)) ==>
        o.width == MenuWidth(o.Names(), measure) &&
        o.itemRects == ItemRects(old(OpenCorners(measure))[o], o.Names(), measure, ascent)
      ensures y >= SplitY() ==> forall o :: o in Repr && o !in old(OpenCorners(measure)) ==>
        o.width == old(o.width) && o.itemRects == old(o.itemRects)
      ensures y >= SplitY() && c == Self ==> forall o :: o in OpenChain() ==>
        o.currentlyHovered == Layout.HitOr(o.itemRects, Point(x, y), old(o.currentlyHovered))
      ensures y >= SplitY() && c == Self ==> forall o :: o in Repr && o !in OpenChain() ==>
        o.currentlyHovered == old(o.currentlyHovered)
      ensures y >= SplitY() && c != Self ==> forall o :: o in Repr ==> o.currentlyHovered == old(o.currentlyHovered)
    {
      var splitY := rect.min.y + Style.MenuFontSize + 2 * Style.MenuBarYPadding;
      if y < splitY {
        HoverBar(Point(x, y));
        return Self;
      }
      c := HoverBelow(x, y, measure, ascent);
    }

    /** The hover loop over the headers. */
    method HoverBar(p: Point)
      modifies this`currentlyHovered, this`currentlyOpen
      ensures currentlyHovered == Layout.HitOr(topRects, p, old(currentlyHovered))
      ensures currentlyOpen == (if old(currentlyOpen) == -1 then -1 else Layout.HitOr(topRects, p, old(currentlyOpen)))
    {
      var i := 0;
      while i < |topRects|
        invariant 0 <= i <= |topRects|
        invariant currentlyHovered == Layout.HitOr(topRects[..i], p, old(currentlyHovered))
        invariant currentlyOpen == (if old(currentlyOpen) == -1 then -1 else Layout.HitOr(topRects[..i], p, old(currentlyOpen)))
      {
        assert topRects[..i + 1][..i] == topRects[..i];
        if In(p, topRects[i]) {
          currentlyHovered := i;
          if currentlyOpen != -1 && currentlyHovered != currentlyOpen {
            currentlyOpen := currentlyHovered;
          }
        }
        i := i + 1;
      }
      assert topRects[..i] == topRects;
    }

    /** The hover below the bar: over the open menu, or handed to the child. */
    method HoverBelow(x: int, y: int, measure: Str -> Size, ascent: int) returns (c: Consumer)
      requires Valid() && AllConsistent()
      requires currentlyOpen >= 0 ==> currentlyOpen < |topRects| && currentlyOpen < |items|
      modifies Repr`width, Repr`itemRects, Repr`currentlyHovered
      ensures AllConsistent()
      ensures c == Self <==> currentlyOpen >= 0 && InAny(old(OpenSpace(measure, ascent)), Point(x, y))
      ensures c != Self ==> c == (if hasChild then Child(Visit(Content, x, y)) else Nil)
      ensures forall o :: o in old(OpenCorners(measure)) ==>
        o.width == MenuWidth(o.Names(), measure) &&
        o.itemRects == ItemRects(old(OpenCorners(measure))[o], o.Names(), measure, ascent)
      ensures forall o :: o in Repr && o !in old(OpenCorners(measure)) ==>
        o.width == old(o.width) && o.itemRects == old(o.itemRects)
      ensures c == Self ==> forall o :: o in OpenChain() ==>
        o.currentlyHovered == Layout.HitOr(o.itemRects, Point(x, y), old(o.currentlyHovered))
      ensures c == Self ==> forall o :: o in Repr && o !in OpenChain() ==> o.currentlyHovered == old(o.currentlyHovered)
      ensures c != Self ==> forall o :: o in Repr ==> o.currentlyHovered == old(o.currentlyHovered)
    {
      var subMenuSpace := OpenMenuSpace(measure, ascent);
      var inside := AnyHit(subMenuSpace, Point(x, y));
      if inside {
        TellOpenMenu(x, y);
        return Self;
      }
      if hasChild {
        return Child(Visit(Content, x, y));
      }
      return Nil;
    }

    /** Asks the open menu, if any, for the space it covers. */
    method OpenMenuSpace(measure: Str -> Size, ascent: int) returns (space: seq<Rect>)
      requires Valid() && AllConsistent()
      requires currentlyOpen >= 0 ==> currentlyOpen < |topRects| && currentlyOpen < |items|
      modifies Repr`width, Repr`itemRects
      ensures AllConsistent()
      ensures space == old(OpenSpace(measure, ascent))
      ensures currentlyOpen < 0 ==> space == []
      ensures forall o :: o in Repr ==> o.currentlyHovered == old(o.currentlyHovered)
      ensures forall o :: o in old(OpenCorners(measure)) ==>
        o.width == MenuWidth(o.Names(), measure) &&
        o.itemRects == ItemRects(old(OpenCorners(measure))[o], o.Names(), measure, ascent)
      ensures forall o :: o in Repr && o !in old(OpenCorners(measure)) ==>
        o.width == old(o.width) && o.itemRects == old(o.itemRects)
    {
      space := [];
      if currentlyOpen >= 0 {
        var topLevelRect := topRects[currentlyOpen];
        var item := items[currentlyOpen];
        assert item.Repr <= Repr;
        space := item.SpaceUsed(Point(topLevelRect.min.x, topLevelRect.max.y), measure, ascent);
        forall o | o in Repr
          ensures o.Consistent()
        {
          if o !in item.Repr {
            assert old(o.Consistent());
          }
        }
      }
    }

    /** Passes the hover on to the open menu. */
    method TellOpenMenu(x: int, y: int)
      requires Valid() && AllConsistent()
      requires 0 <= currentlyOpen < |items|
      modifies Repr`currentlyHovered
      ensures AllConsistent()
      ensures forall o :: o in OpenChain() ==>
        o.currentlyHovered == Layout.HitOr(o.itemRects, Point(x, y), old(o.currentlyHovered))
      ensures forall o :: o in Repr && o !in OpenChain() ==> o.currentlyHovered == old(o.currentlyHovered)
    {
      var item := items[currentlyOpen];
      assert item.Repr <= Repr;
      item.MouseOver(x, y);
      forall o | o in Repr
        ensures o.Consistent()
      {
        if o !in item.Repr {
          assert old(o.Consistent());
        }
      }
    }

    /** Keeps a bar of MenuBarHeight at the top for itself, packs one header per
        item from the left, each as wide as its text plus padding and as high as
        the bar, and gives the child everything below the bar. */
    method SetRect(r: Rect, measure: Str -> Size) returns (places: seq<Place>)
      modifies this`rect, this`topRects
      ensures rect == Rect(r.min, Point(r.max.x, r.min.y + Style.MenuBarHeight))
      ensures |topRects| == |items|
      ensures forall i :: 0 <= i < |topRects| ==>
        topRects[i].min.y == r.min.y && topRects[i].max.y == r.min.y + Style.MenuBarHeight &&
        Dx(topRects[i]) == measure(items[i].txt).w + 2 * Style.MenuBarXPadding
      ensures |topRects| > 0 ==> topRects[0].min.x == r.min.x
      ensures forall i :: 0 < i < |topRects| ==> topRects[i].min.x == topRects[i - 1].max.x
      ensures places == (if hasChild then [Place(Content, Rect(Point(r.min.x, r.min.y + Style.MenuBarHeight), r.max))] else [])
    {
      var splitY := r.min.y + Style.MenuFontSize + 2 * Style.MenuBarYPadding;
      rect := Rect(r.min, Point(r.max.x, splitY));
      var startX := rect.min.x;
      var yStart := rect.min.y;
      var yEnd := rect.max.y;
      var rs: seq<Rect> := [];
      var i := 0;
      while i < |items|
        invariant 0 <= i <= |items| && |rs| == i
        invariant i == 0 ==> startX == r.min.x
        invariant i > 0 ==> startX == rs[i - 1].max.x
        invariant forall j :: 0 <= j < i ==>
          rs[j].min.y == r.min.y && rs[j].max.y == splitY &&
          Dx(rs[j]) == measure(items[j].txt).w + 2 * Style.MenuBarXPadding
        invariant i > 0 ==> rs[0].min.x == r.min.x
        invariant forall j :: 0 < j < i ==> rs[j].min.x == rs[j - 1].max.x
      {
        var widthNeeded := measure(items[i].txt).w + 2 * Style.MenuBarXPadding;
        rs := rs + [MakeRect(startX, yStart, startX + widthNeeded, yEnd)];
        startX := startX + widthNeeded;
        i := i + 1;
      }
      topRects := rs;
      places := [];
      if hasChild {
        places := [Place(Content, Rect(Point(r.min.x, splitY), r.max))];
      }
    }
  }
}
