# A verified model of the cowsed/IDE editor core

This project models, in Dafny, the core of a small Go text editor built on the ebiten game
library. The editor is a tree of widgets. Every frame the window root routes mouse events to the
widget under the mouse cursor and sends the keyboard to that same widget. The main widget is a
line-buffer text editor with syntax highlighting.

The model covers:

- **Text buffer** (`Buffer`, `TextEdit`). The `TextEditor` class keeps the lines and the cursor in
  fields, and each editing method updates them in place. Each method is proved to leave the
  document equal to a pure function of module `Buffer` applied to the old document. The lemmas
  of `Buffer` state what the editor promises across calls:
  - every shortcut keeps the document well formed;
  - Backspace undoes Newline and undoes typed text;
  - the cursor moves walk the text one position at a time;
  - a read-only buffer still edits through its shortcuts.
- **Highlight span claiming** (`Highlight`). This is the loop of `DrawWithHighlighting` over one
  line. The in-place `[]bool` claiming is proved equal to a greedy claiming function. The
  painted strokes are proved to be disjoint, free when painted, and maximal.
- **Widgets** (`Widget`, `Layout`, `Menus`).
  - `Tabs`, `HorizontalSplitter` and `ColorRect` from layout.go.
  - `MenuBar`, the nested `DummyMenuItem` dropdowns and `KeyShortcut.String` from menubar.go.
  - A mouse handler returns a `Consumer`: the widget itself, nil, or a call on one of its
    children. `SetRect` returns the rectangles it hands to its children.
- **The nanorc parser** (`Syntax`). `ParseHighlighter` is proved equal to a line-by-line parsing
  function. Lemmas give the effect of each kind of line, the stop at a bad `syntax` pattern, and
  a round trip: rendering a highlighter as a nanorc file and parsing it gives the highlighter back.
- **Utilities** (`Util`, `Geometry`, `GoStrings`). These are `max`, `min`, `text_stats`,
  `ParseHexColor` and the rectangle corners, together with the parts of Go's `image` and
  `strings` packages that the code relies on.
- **The frame loop** (`App`). `Editor.Update` does the hover bookkeeping: `MouseOut` goes to the
  previous consumer, the button goes to the root, and the keyboard goes to the hover target.
  `Editor.Layout` resizes the root.

Go strings are byte sequences (`GoStrings.Str`). An index or slice out of range in the Go code is
a panic. For the class methods this becomes a `requires` stating exactly the condition under which
the Go code stays in range. `ParseHighlighter` is different: a malformed line there gives a
`Panicked` outcome.

## Model

| member | source | states |
|---|---|---|
| Util.Max | util.go:21-26 | the result is at least both arguments and equals one of them |
| Util.Min | util.go:27-32 | the result is at most both arguments and equals one of them |
| Util.TextStats | util.go:11-19 | returns the number of lines first, then the length of the longest line: every line is at most that long, some line is exactly that long, and it is 0 for no lines |
| Util.TopLeft | util.go:37-39 | the point (Min.X, Min.Y) |
| Util.TopRight | util.go:40-42 | the point (Max.X, Min.Y) |
| Util.BottomLeft | util.go:43-45 | the point (Min.X, Max.Y) |
| Util.BottomRight | util.go:46-48 | the point (Max.X, Max.Y) |
| Util.CornersOfNonEmptyRect | util.go:37-48 | of the four corners of a non-empty rectangle only the top-left lies in it, and the top-left and bottom-right corners rebuild it |
| Util.HexToByte | util.go:63-73 | a digit's value is below 16, and any byte that is not a hex digit counts as 0 |
| Util.HexDigitValue | util.go:63-73 | each of the sixteen digits, in lower and in upper case, reads back as its own value |
| Util.HexDigitCaseInsensitive | util.go:67-70 | 'a'..'f' and 'A'..'F' read alike, as 10..15 |
| Util.ParseHexColor | util.go:56-86 | the colour computed field by field, alpha first, equals HexColor of the input, whose properties the next three lemmas state |
| Util.HexColorFallbacks | util.go:57-61 | without a leading '#' the result is all-zero RGBA, alpha included; with '#' alpha is 0xff, and any length other than 4 and 7 gives opaque black |
| Util.HexColorRoundTrip | util.go:75-79 | every opaque colour written as #rrggbb parses back to itself: each channel is 16*hi+lo |
| Util.ShortFormDoublesDigits | util.go:80-83 | #rgb is the colour #rrggbb, each channel being digit*17 |
| GoStrings.Split | text_editor.go:320 | strings.Split on one byte returns at least one piece, and no piece holds the separator |
| GoStrings.JoinSplit | text_editor.go:320 | joining the pieces of a split with the separator gives the string back |
| GoStrings.SplitJoin | syntax_highlighting.go:37-38 | splitting a join of separator-free pieces gives the pieces back |
| GoStrings.Unquote | syntax_highlighting.go:42 | `s[1:len(s)-1]` removes exactly the first and last byte |
| Buffer.EnterText | text_editor.go:197-204 | the cursor's line becomes line[:col] + s + line[col:], the column advances by len(s), and the row and every other line are unchanged |
| Buffer.Backspace | text_editor.go:206-245 | at (0,0) nothing changes. At column 0 the line is appended to the previous one, one line fewer remains, and the cursor goes to (row-1, old length of row-1). Mid-line the column is clamped to the line length, the byte before it is deleted, the column decreases by one, and other lines are untouched |
| Buffer.Newline | text_editor.go:299-318 | line row is replaced by line[:col] and line[col:], exactly one line is added, the other lines keep their order, and the cursor goes to (row+1, 0) |
| Buffer.CursorLeft | text_editor.go:246-258 | a no-op at (0,0); at column 0 it wraps to the end of the previous line; otherwise the column decreases by one |
| Buffer.CursorRight | text_editor.go:259-276 | at or past the end of the last line it is a no-op; at or past the end of any other line it goes to (row+1, 0); otherwise the column increases by one and stays within the line |
| Buffer.CursorDown | text_editor.go:277-288 | on the last row the column becomes the line length; otherwise the row increases and the column is clamped to the new line |
| Buffer.CursorUp | text_editor.go:289-298 | on the top row the column becomes 0; otherwise the row decreases and the column is clamped to the new line |
| Buffer.EndLine | text_editor.go:415-418 | the column becomes the length of the cursor's line |
| Buffer.StartLine | text_editor.go:419-422 | the column becomes 0 |
| Buffer.SetText | text_editor.go:319-321 | the new lines are the newline-split of s: at least one line, none holding a newline, joining them with newlines gives s, and the cursor is not touched |
| Buffer.ShortcutAction | text_editor.go:324-335 | only the nine editing keys with no modifiers, and Ctrl+A, are bound to an action |
| Buffer.ApplyPreservesWellFormed | text_editor.go:206-318 | every shortcut can run on a document with at least one line and an in-range cursor, and keeps it so |
| Buffer.EnterTextPreservesWellFormed | text_editor.go:197-204 | typing keeps a well-formed document well formed |
| Buffer.RunPreservesWellFormed | text_editor.go:341-354 | any sequence of shortcuts runs without panicking from a well-formed document and leaves it well formed |
| Buffer.BackspaceUndoesNewline | text_editor.go:299-318 | Backspace right after Newline restores the original lines and cursor |
| Buffer.BackspaceUndoesOneByte | text_editor.go:231-243 | Backspace after typing one byte restores the document |
| Buffer.BackspacesUndoEnterText | text_editor.go:197-204 | typing s and pressing Backspace len(s) times restores the document |
| Buffer.TypeTwoThenEraseTwo | text_editor.go:231-243 | typing "ab" into an empty buffer and erasing twice gives an empty line with the cursor at (0,0) |
| Buffer.OffsetAtMostEnd | text_editor.go:259-276 | the cursor's offset in the text never passes the end, and equals it exactly at the end of the last line |
| Buffer.CursorRightSteps | text_editor.go:259-276 | CursorRight moves one position forward in the text, except at its end, where it changes nothing |
| Buffer.CursorLeftSteps | text_editor.go:246-258 | CursorLeft moves one position back, except at (0,0), where it changes nothing |
| Buffer.LeftRightInverse | text_editor.go:246-276 | Left undoes Right away from the end, and Right undoes Left away from the start |
| Buffer.RightsReachEnd | text_editor.go:259-276 | as many CursorRight presses as there are positions left reach the end, and one more press is a no-op |
| Buffer.SetTextCanStrandCursor | text_editor.go:319-321 | the cursor is not clamped, so a shorter text leaves it past the last line, where CursorRight, Newline and Backspace would index out of range |
| Buffer.ReadOnlyStillEdits | text_editor.go:356-371 | a read-only buffer ignores typed text but still runs every shortcut |
| Buffer.ReadOnlyEnterAddsLine | text_editor.go:356-361 | Enter alone adds a line even to a read-only buffer |
| TextEdit.TextEditor.constructor | main.go:85-87 | a TextEditor literal: the given lines and ReadOnly flag, the cursor at (0, 0), unfocused, unsaved, no file path or name, interaction time 0, the zero rectangle |
| TextEdit.TextEditor.Title | text_editor.go:41-51 | "untitled*" without a path; otherwise the file name, followed by exactly one '*' when unsaved |
| TextEdit.TextEditor.KeyboardFocusLost | text_editor.go:53-55 | focus is cleared |
| TextEdit.TextEditor.Interacted | text_editor.go:373-375 | the interaction time becomes the current tick |
| TextEdit.TextEditor.EnterText | text_editor.go:197-204 | the new document is Buffer.EnterText of the old one, and the interaction time is updated |
| TextEdit.TextEditor.Backspace | text_editor.go:206-245 | the new document is Buffer.Backspace of the old one |
| TextEdit.TextEditor.CursorLeft | text_editor.go:246-258 | the new document is Buffer.CursorLeft of the old one |
| TextEdit.TextEditor.CursorRight | text_editor.go:259-276 | the new document is Buffer.CursorRight of the old one |
| TextEdit.TextEditor.CursorDown | text_editor.go:277-288 | the new document is Buffer.CursorDown of the old one |
| TextEdit.TextEditor.CursorUp | text_editor.go:289-298 | the new document is Buffer.CursorUp of the old one |
| TextEdit.TextEditor.Newline | text_editor.go:299-318 | the new document is Buffer.Newline of the old one |
| TextEdit.TextEditor.SetText | text_editor.go:319-321 | the new document is Buffer.SetText of the old one, with the cursor untouched |
| TextEdit.TextEditor.Tab | text_editor.go:408-410 | inserts four spaces, as EnterText does |
| TextEdit.TextEditor.SelectAll | text_editor.go:411-414 | only records an interaction |
| TextEdit.TextEditor.EndLine | text_editor.go:415-418 | the new document is Buffer.EndLine of the old one |
| TextEdit.TextEditor.StartLine | text_editor.go:419-422 | the new document is Buffer.StartLine of the old one |
| TextEdit.TextEditor.Perform | text_editor.go:324-335 | running a bound method changes the document as Buffer.Apply says |
| TextEdit.TextEditor.TakeKeyboard | text_editor.go:356-372 | shortcuts run first, then typed text is inserted unless the buffer is read-only or Ctrl, Alt or Meta is held |
| TextEdit.TextEditor.LMouseDown | text_editor.go:377-381 | focuses the editor and consumes the press |
| TextEdit.TextEditor.LMouseUp | text_editor.go:384-387 | focuses the editor and consumes the release |
| TextEdit.TextEditor.MouseOver | text_editor.go:394-397 | the editor consumes every hover |
| TextEdit.TextEditor.SetRect | text_editor.go:400-402 | stores the rectangle |
| Highlight.ColorFor | text_editor.go:167-170 | a known colour name gives its table entry; an unknown one, and only an unknown one, gives Greenyellow |
| Highlight.Mark | text_editor.go:135-139 | marking claims exactly the old claims plus the span's bytes, clipped to the line |
| Highlight.StrokesOf | text_editor.go:172-175 | one stroke per match of a rule, in the rule's colour |
| Highlight.CandidatesAreMatches | text_editor.go:164-175 | the strokes tried are exactly the matches of all rules, each in its rule's colour |
| Highlight.Claim | text_editor.go:173-182 | claiming never releases a claimed byte |
| Highlight.ClaimDisjoint | text_editor.go:173-182 | every painted stroke is a candidate whose bytes were all free, and no two painted strokes share a byte |
| Highlight.ClaimUsage | text_editor.go:176-182 | a byte ends claimed exactly when it was claimed before or lies in a painted stroke |
| Highlight.ClaimMaximal | text_editor.go:173-182 | every candidate that was not painted overlaps a final claim |
| Highlight.LastRuleFirst | text_editor.go:164-182 | the first match of the last rule is always painted first |
| Highlight.AlreadyUsed | text_editor.go:140-147 | true exactly when some byte of the clipped span is claimed |
| Highlight.Use | text_editor.go:135-139 | the usage array becomes Mark of its old contents |
| Highlight.PaintLine | text_editor.go:133-186 | visiting the rules from last to first, the strokes drawn on a line are exactly the greedy claiming of all candidates |
| Highlight.PaintRule | text_editor.go:172-185 | one rule's matches, in order, draw and claim what the claiming function says |
| Layout.LastContaining | layout.go:90-95 | the last rectangle containing the point, or -1 when none does |
| Layout.ScanHits | layout.go:121-125 | the loop leaves the index of the last hit, or the old value when nothing is hit |
| Layout.HeaderRect | layout.go:152-154 | a header starts at `start`, is text width + 2*tab_x_padding wide and MainFontSize + 2*tab_y_padding high |
| Layout.ReleaseTarget | layout.go:105-115 | corrected release: the tab bar keeps a release exactly when it is above the header band's bottom, otherwise the current pane gets it |
| Layout.ReleaseAsWrittenMisroutes | layout.go:107 | with the x test, a release in the body near the left edge is kept by the bar, and a release on a header goes to the pane |
| Layout.DrawTarget | layout.go:63-66 | corrected guard: never indexes out of range, and draws the current pane exactly when it exists and is non-nil |
| Layout.DrawGuardOffByOne | layout.go:63 | the written guard panics exactly when the current tab equals the number of panes, and agrees with the corrected one otherwise |
| Layout.EmptyTabsPanicOnDraw | layout.go:63 | a tab container with no panes and tab 0 selected indexes out of range |
| Layout.Tabs.MouseOut | layout.go:56-58 | the hovered header becomes -1 |
| Layout.Tabs.constructor | main.go:97-108 | the Tabs literal: the given titles, panes and tab height, tab 0 current, nothing hovered, no header rectangles and the zero rectangle |
| Layout.Tabs.LMouseDown | layout.go:87-103 | in the header band it selects the last header under the mouse, keeps the tab when none is hit, and consumes the press; below the band it delegates to the current pane, or returns nil for a nil pane |
| Layout.Tabs.LMouseUp | layout.go:105-115 | returns what the written test of x against TabHeight gives |
| Layout.Tabs.MouseOver | layout.go:117-133 | in the header band it updates only the hovered header, never the current tab; below it delegates to the current pane |
| Layout.Tabs.SetRect | layout.go:136-167 | headers are packed left to right from the top-left corner, one per tab, each starting at the previous one's right edge and sized by its title; every non-nil pane, and only those, gets the full rectangle below TabHeight |
| Layout.ClampDrag | layout.go:254-260 | the divider stays 5 pixels inside the rectangle, follows the mouse inside that band, and is min.x+5 left of it and max.x-5 right of it (the left bound winning on narrow rectangles) |
| Layout.ClampDragIdempotent | layout.go:254-260 | clamping a clamped position changes nothing |
| Layout.SplitTiles | layout.go:299-305 | the two child rectangles meet at the divider, span the full height and tile the splitter's rectangle |
| Layout.HorizontalSplitter.constructor | main.go:94-110 | the HorizontalSplitter literal: the given split_x, children and border half-width, not dragging, border not hovered, the zero rectangle |
| Layout.HorizontalSplitter.LMouseUp | layout.go:190-204 | a release while dragging ends the drag and is consumed wherever it is; otherwise it goes to the side it falls on, with x shifted by split_x on the right |
| Layout.HorizontalSplitter.LMouseDown | layout.go:206-224 | a press strictly inside the border band starts a drag; the result is exactly the left child left of the band, the right child right of it, and the splitter itself on the band or when that side is nil |
| Layout.HorizontalSplitter.SetRect | layout.go:285-313 | with old width 0 it only stores the rectangle; otherwise it rescales the divider and gives the left child [Min.X, Min.X+split_x] and the right child [Min.X+split_x, Max.X], both at full height |
| Layout.HorizontalSplitter.MouseOver | layout.go:226-266 | hover is routed around the screen-space divider, and the child on the mouse's side (if non-nil) is visited whether or not a drag is in progress; while dragging the divider follows the mouse, clamped, the children are re-placed and the splitter keeps the hover |
| Layout.ColorRect.constructor | layout.go:315-317 | a colour rectangle with the given colour |
| Layout.ColorRect.LMouseDown | layout.go:340-342 | consumes the press |
| Layout.ColorRect.LMouseUp | layout.go:345-347 | consumes the release |
| Layout.ColorRect.MouseOver | layout.go:350-353 | consumes the hover |
| Layout.ColorRect.SetRect | layout.go:355-358 | stores the rectangle |
| Menus.ShortcutTextIsModsThenKey | menubar.go:18-26 | the text is every modifier's name followed by " + ", then the key's name |
| Menus.ModsTextAppend | menubar.go:20-23 | one more modifier appends its name and " + " |
| Menus.ShortcutString | menubar.go:18-26 | the loop builds the modifiers' text followed by the key's name |
| Menus.Widest | menubar.go:85-91 | the widest item text: at least every text's width and equal to one of them, or 0 with no items |
| Menus.TopsIncrease | menubar.go:82-90 | item tops start at menu_y_padding and each is the previous top plus that item's height and a padding; the menu height is the last top plus the last height and a padding |
| Menus.OwnBox | menubar.go:105 | the menu's own box starts at topleft, is the widest text + 2*menu_bar_x_padding wide and the needed height high |
| Menus.AnyHit | menubar.go:263-271 | true exactly when some rectangle of the open menus holds the point |
| Menus.MeasureItems | menubar.go:81-90 | the first loop computes the widest text, the total height and each item's top |
| Menus.LayItems | menubar.go:96-98 | one hover rectangle per item top |
| Menus.OwnLayout | menubar.go:81-98 | the two loops give the menu width, the item rectangles and the box of a menu with these items |
| Menus.DummyMenuItem.constructor | menubar.go:40-48 | nothing hovered, width 0, no shortcut, and the given children |
| Menus.DummyMenuItem.Text | menubar.go:139-141 | the item's text |
| Menus.DummyMenuItem.Children | menubar.go:72-74 | always an empty list, whatever the item holds |
| Menus.DummyMenuItem.Shortcut | menubar.go:69-71 | the item's shortcut |
| Menus.DummyMenuItem.Space | menubar.go:77-107 | nothing without children; otherwise the last rectangle is the item's own box, preceded by the open submenu's rectangles |
| Menus.DummyMenuItem.MouseOver | menubar.go:59-68 | every item of the new hovered chain (this item, its hovered child, that child's hovered child, ...) takes the last of its own item rectangles under the mouse, or keeps its index when none is; every other item below keeps its hovered index; widths and rectangles are untouched; an index is never reset to -1 |
| Menus.DummyMenuItem.SpaceUsed | menubar.go:77-107 | returns Space, which it leaves unchanged; no hovered index changes; every item of the hovered chain that has children gets the width widest + 2*menu_bar_x_padding and one rectangle per child laid at its own submenu corner (without adding the menu's top edge); every other item keeps its width and rectangles |
| Menus.DummyMenuItem.LayOwn | menubar.go:81-98 | the item's own width, item rectangles and box, leaving the hovered child's space unchanged |
| Menus.DummyMenuItem.LayChain | menubar.go:81-105 | the item's own layout and the hovered child's space: the box and child rectangles SpaceUsed returns, the hovered chain laid out at its corners, no hovered index changed and every other item untouched |
| Menus.DummyMenuItem.HoveredSpace | menubar.go:100-104 | the hovered child's rectangles, opened one pixel left of the right edge and one item height per item down, with that child's chain laid out and every other item untouched |
| Menus.MenuBar.constructor | menubar.go:142-149 | nothing hovered and nothing open |
| Menus.MenuBar.MouseOut | menubar.go:168-171 | both the hovered and the open menu become -1 |
| Menus.MenuBar.LMouseDown | menubar.go:212-226 | in the bar it opens the last header under the mouse, keeps the open menu when none is hit, and consumes the press; below the bar it delegates to the child |
| Menus.MenuBar.LMouseUp | menubar.go:229-238 | the bar keeps releases in it and hands the others to the child |
| Menus.MenuBar.MouseOver | menubar.go:241-276 | in the bar it marks the hovered header, retargets the open menu only if one is already open, and leaves every menu item untouched. Below the bar it lays out the open menu's chain, keeps the hover exactly when the point lies in the open menu's space, and then moves the open menu's hovered chain to the items under the mouse; otherwise the child gets it and no hovered index changes |
| Menus.MenuBar.HoverBar | menubar.go:244-255 | the hover loop over the headers, as MouseOver states it |
| Menus.MenuBar.HoverBelow | menubar.go:256-275 | the open menu's chain is laid out; the bar keeps the hover exactly when a menu is open and the point lies in its space, and then the open menu's hovered chain moves to the items under the mouse; otherwise no hovered index changes |
| Menus.MenuBar.OpenMenuSpace | menubar.go:257-262 | the open menu's SpaceUsed below its header, or nothing when no menu is open; the open chain is laid out at its corners and nothing else changes |
| Menus.MenuBar.TellOpenMenu | menubar.go:265 | the open menu's new hovered chain takes the items under the mouse and every other item keeps its hovered index |
| Menus.MenuBar.SetRect | menubar.go:279-308 | keeps a bar of MenuFontSize + 2*menu_bar_y_padding; packs one header per item left to right, each text width + 2*menu_bar_x_padding wide and as high as the bar; gives the child the rest below the bar |
| Syntax.ParseOneLine | syntax_highlighting.go:38-82 | the switch on a line's first word does what ParseLine says |
| Syntax.ParseHighlighter | syntax_highlighting.go:31-85 | starting from the empty record, the newline-split lines are parsed in order, stopping at the first error or panic |
| Syntax.ParseAppend | syntax_highlighting.go:37-83 | parsing a + b is parsing a and then, if that went on, parsing b from its result |
| Syntax.UnknownLineIgnored | syntax_highlighting.go:39-82 | a line whose first word is not syntax, comment or color changes nothing |
| Syntax.Quote | syntax_highlighting.go:42 | quoting is undone by the s[1:len(s)-1] slice |
| Syntax.WordsOf | syntax_highlighting.go:38 | words without spaces joined by spaces split back into the same words |
| Syntax.SyntaxLine | syntax_highlighting.go:40-50 | `syntax lang "re" ...` sets the name to parts[1] and the file-ending pattern to parts[2] unquoted when it compiles, and stops with an error otherwise |
| Syntax.SyntaxErrorStops | syntax_highlighting.go:43-48 | a syntax pattern that fails to compile returns the record as it stood, discarding every later line |
| Syntax.CommentLine | syntax_highlighting.go:51-55 | `comment "text"` sets the comment to parts[1] unquoted |
| Syntax.ColorLine | syntax_highlighting.go:56-81 | `color fg,bg ... "re"` appends one expression whose colours come from parts[1] and whose pattern comes from the last word only |
| Syntax.ForegroundOnly | syntax_highlighting.go:58-63 | without a comma the foreground is the whole colour word and the background is empty |
| Syntax.ForegroundAndBackground | syntax_highlighting.go:64-66 | with a comma, foreground and background are the two sides |
| Syntax.ParsedExpressions | syntax_highlighting.go:72-81 | after a successful parse the expressions are the old ones plus one per color line, in file order |
| Syntax.ParseColorLines | syntax_highlighting.go:56-81 | a run of color lines always parses, and appends exactly one expression per line, even when a pattern does not compile |
| Syntax.SyntaxTextParses | syntax_highlighting.go:40-50 | the rendered syntax line parses to the highlighter's name and file ending |
| Syntax.CommentTextParses | syntax_highlighting.go:51-55 | the rendered comment line parses to the highlighter's comment |
| Syntax.ColorTextExpression | syntax_highlighting.go:56-81 | the rendered color line of an expression parses to that expression |
| Syntax.ColorTextsExpressions | syntax_highlighting.go:72-81 | the rendered color lines parse to the expressions, in order |
| Syntax.ParseRender | syntax_highlighting.go:31-85 | rendering a highlighter (space-free words, compiling patterns) as a nanorc file and parsing it gives the highlighter back |
| App.FrameCalls | main.go:31-47 | in one frame: MouseOut goes to the previous consumer exactly when the consumer changed and the previous one is non-nil; LMouseDown is sent on a press, otherwise LMouseUp on a release, never both; the keyboard goes only to this frame's consumer, last |
| App.Editor.constructor | main.go:112-114 | the Editor literal: a zero screen size, no last mouse consumer, no calls made, and the root widget's rectangle |
| App.Editor.Update | main.go:27-49 | Escape ends the game with nothing changed. Otherwise the last consumer becomes this frame's hover result, the calls of FrameCalls are made in order, and a nil consumer panics at TakeKeyboard |
| App.LayoutAsWritten | main.go:57-68 | returns the inputs; skips the resize exactly when both new dimensions equal the stored width, and otherwise stores the size and gives the root the whole window |
| App.Editor.Layout | main.go:57-68 | the editor's new size and root rectangle are those of LayoutAsWritten |
| App.Layout | main.go:57-68 | corrected test: always ends with the new size, and keeps the root filling the window |
| App.LayoutAsWrittenMissesResize | main.go:58 | a 600x800 window shrunk to 600x600 is skipped by the written test, so the root keeps its 800-pixel height |
| App.LayoutIdempotent | main.go:57-68 | laying out the same size twice changes nothing the second time |

## Left out

- Drawing is not modelled. This covers every `Draw`, `DrawCursor`, `DrawTextTexture`, `DrawTabs`, `DummyMenuItem.DrawOpen`, `DrawRect` and `DrawBorders`, the scroll shadow, and the text drawn by `DrawWithHighlighting`. Drawing changes no widget state, except that `MenuBar.Draw` re-runs `SpaceUsed` on the open menu (menubar.go:181-183). That is the layout `MenuBar.MouseOver` redoes through `OpenMenuSpace` before `TellOpenMenu` reads it, so the handlers see the same state. Only the claiming of `DrawWithHighlighting` is modelled.
- Font metrics are parameters. Text widths (`text.BoundString`, `font.MeasureString`) are `textWidth` or `measure`, and the menu font's ascent is `ascent`.
- Font and style loading from disk (style.go) is not modelled; the paddings and font sizes are constants in `Style`.
- The regular-expression engine is not modelled:
  - whether a pattern compiles is the parameter `compiles`;
  - a compiled expression is represented by its pattern;
  - the matches on a line are given as spans;
  - `Initial.fileEnding` is `None`, standing for the empty `regexp.Regexp` the parser starts with; no parsed `syntax` line gives `None`.
- `ParseSyntaxHighlightingDefinitions` reads files and logs, so it is not modelled.
- Layout.HorizontalSplitter.SetRect: the float64 rescaling of `split_x` is an abstract parameter `rescale`, so the ratio it keeps is not stated.
- The ticker goroutine that calls `SetText` from another thread is not modelled: it is a data race, not a sequential behaviour.
- Input polling is not modelled: keys, characters, mouse buttons and the cursor position arrive as parameters. `SetCursorShape` is not modelled either.
- TextEdit.TextEditor.TakeKeyboard visits the pressed shortcut keys in a given order. Go visits its map in random order, so the model does not say which order that is.
- `SelectAll` is modelled without its log line. `DummyMenuItem.Execute` only panics and is not modelled. Every `log` and `fmt` print is left out.
- Menus.ShortcutString takes `Key.String` of the graphics library as a parameter `name`.
- Go's `int` is 64 bits wide. The model's integers are unbounded, so wrap-around on overflow is not modelled.
- A nil child in a menu's `kids` is not modelled: children are always present.
- A `color` line whose pattern does not compile leaves a nil regular expression (`Syntax.Expression` with `reg == None`). `Highlight.Rule` has no nil case, and `exp.reg.FindAllStringIndex` at text_editor.go:172 would panic on one. No TextEditor in main.go is given a highlighter, so the case does not arise in this program.
- Menus.DummyMenuItem.LayChain lays out the hovered child's chain before the item's own rectangles, the reverse of the source's order. The two steps write different items, so the final state is the same.
- The per-line `y` offset of the highlighting loop only moves the drawing, so it is not modelled.
- The wiring in `main()` is not modelled; it is setup plus I/O.
- App.Editor.Update takes the root widget's `MouseOver` answer as part of its `Frame` input rather than calling the widget tree. The root's `LMouseDown` and `LMouseUp` are recorded as calls, and their results are discarded as in the code.
- The `TakeKeyboard(key)` methods of Tabs, HorizontalSplitter, ColorRect and MenuBar only log, so they are not modelled. `MouseOut` of the splitter and of the colour rectangle changes nothing.
- In a few places the code differs from what one might expect, and the model follows the code:
  - the splitter compares clicks with the local `split_x` but hovers with the screen-space `split_x + Min.X`;
  - menu item rectangles do not add the menu's top edge;
  - a read-only buffer still edits through its shortcuts;
  - `SetText` never clamps the cursor.

## Findings

The widget classes keep the behaviour as written. The corrected definitions sit beside them, with their properties proved.

| source | as written | input that shows it | evidently intended | confidence | as-written member | corrected member |
|---|---|---|---|---|---|---|
| layout.go:63 | `t.CurrentTab > len(t.Tabs)` lets `CurrentTab == len(t.Tabs)` through to `t.Tabs[t.CurrentTab]` | Tabs with no panes and CurrentTab 0 | `>=`: skip drawing when the index is out of range | high, not executed | Layout.DrawTargetAsWritten (shown by Layout.DrawGuardOffByOne, Layout.EmptyTabsPanicOnDraw) | Layout.DrawTarget |
| layout.go:107 | the header test of LMouseUp compares `x` with `Min.X + TabHeight` | release at (10, 300) in an 800x600 Tabs with TabHeight 26 is kept by the bar; release at (100, 5) on a header goes to the pane | compare `y` with `Min.Y + TabHeight`, as LMouseDown and MouseOver do | high, not executed | Layout.ReleaseTargetAsWritten (shown by Layout.ReleaseAsWrittenMisroutes) | Layout.ReleaseTarget |
| main.go:58 | the unchanged-size test compares `outsideHeight` with `screenWidth` | window 600x800 resized to 600x600: the resize is skipped and the root keeps height 800 | compare `outsideHeight` with `screenHeight` | high, not executed | App.LayoutAsWritten (shown by App.LayoutAsWrittenMissesResize) | App.Layout |
