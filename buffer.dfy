/** The text and cursor of a TextEditor as a value, and what each editing
    operation of text_editor.go does to it. The TextEditor class is proved
    against these functions; the lemmas here state what the editor promises
    across several operations. Each `Can...` predicate is the condition under
    which the Go code indexes and slices in range (otherwise it panics). */
module Buffer {
  import opened GoStrings
  import opened Util
  import opened Wrappers

  datatype Cursor = Cursor(row: nat, col: nat)

  datatype Doc = Doc(lines: seq<Str>, cursor: Cursor)

  const TabText: Str := "    "

  predicate RowInRange(d: Doc) {
    d.cursor.row < |d.lines|
  }

  function Line(d: Doc): Str
    requires RowInRange(d)
  {
    d.lines[d.cursor.row]
  }

  /** The state every edit keeps: at least one line, the cursor on a line and
      within it (column len(line) is the position after the last byte). */
  predicate WellFormed(d: Doc) {
    |d.lines| >= 1 && RowInRange(d) && d.cursor.col <= |Line(d)|
  }

  /** Lines other than `row` are the same in both documents of equal length. */
  predicate OthersUnchanged(a: seq<Str>, b: seq<Str>, row: nat) {
    |a| == |b| && forall i :: 0 <= i < |a| && i != row ==> a[i] == b[i]
  }

  // ---------------------------------------------------------------- EnterText

  predicate CanEnterText(d: Doc) {
    RowInRange(d) && d.cursor.col <= |Line(d)|
  }

  function EnterText(d: Doc, s: Str): (r: Doc)
    requires CanEnterText(d)
    ensures OthersUnchanged(r.lines, d.lines, d.cursor.row)
    ensures r.lines[d.cursor.row] == Line(d)[..d.cursor.col] + s + Line(d)[d.cursor.col..]
    ensures r.cursor == Cursor(d.cursor.row, d.cursor.col + |s|)
  {
    var line := Line(d);
    Doc(d.lines[d.cursor.row := line[..d.cursor.col] + s + line[d.cursor.col..]],
        Cursor(d.cursor.row, d.cursor.col + |s|))
  }

  // ---------------------------------------------------------------- Backspace

  /** At (0,0) nothing is indexed. At column 0 the line and the one above are read.
      Mid-line the column is first clamped to the line length and must stay positive. */
  predicate CanBackspace(d: Doc) {
    (d.cursor.row == 0 && d.cursor.col == 0) ||
    (RowInRange(d) && (d.cursor.col > 0 ==> Min(|Line(d)|, d.cursor.col) >= 1))
  }

  function Backspace(d: Doc): (r: Doc)
    requires CanBackspace(d)
    ensures d.cursor == Cursor(0, 0) ==> r == d
    ensures d.cursor.col == 0 && d.cursor.row > 0 ==>
      var row := d.cursor.row;
      && |r.lines| == |d.lines| - 1 >= 1
      && r.lines[row - 1] == d.lines[row - 1] + d.lines[row]
      && (forall i :: 0 <= i < row - 1 ==> r.lines[i] == d.lines[i])
      && (forall i :: row <= i < |r.lines| ==> r.lines[i] == d.lines[i + 1])
      && r.cursor == Cursor(row - 1, |d.lines[row - 1]|)
    ensures d.cursor.col > 0 ==>
      var c := Min(|Line(d)|, d.cursor.col);
      && OthersUnchanged(r.lines, d.lines, d.cursor.row)
      && r.lines[d.cursor.row] == Line(d)[..c - 1] + Line(d)[c..]
      && r.cursor == Cursor(d.cursor.row, c - 1)
  {
    var row, col := d.cursor.row, d.cursor.col;
    if row == 0 && col == 0 then d
    else if col == 0 then
      Doc(d.lines[..row - 1] + [d.lines[row - 1] + d.lines[row]] + d.lines[row + 1..],
          Cursor(row - 1, |d.lines[row - 1]|))
    else
      var c := Min(|Line(d)|, col);
      Doc(d.lines[row := Line(d)[..c - 1] + Line(d)[c..]], Cursor(row, c - 1))
  }

  // ---------------------------------------------------------------- Newline

  predicate CanNewline(d: Doc) {
    RowInRange(d) && d.cursor.col <= |Line(d)|
  }

  function Newline(d: Doc): (r: Doc)
    requires CanNewline(d)
    ensures |r.lines| == |d.lines| + 1
    ensures var row := d.cursor.row;
      && (forall i :: 0 <= i < row ==> r.lines[i] == d.lines[i])
      && r.lines[row] == Line(d)[..d.cursor.col]
      && r.lines[row + 1] == Line(d)[d.cursor.col..]
      && (forall i :: row + 1 < i < |r.lines| ==> r.lines[i] == d.lines[i - 1])
    ensures r.cursor == Cursor(d.cursor.row + 1, 0)
  {
    var row := d.cursor.row;
    var line := Line(d);
    Doc(d.lines[..row] + [line[..d.cursor.col], line[d.cursor.col..]] + d.lines[row + 1..],
        Cursor(row + 1, 0))
  }

  // ---------------------------------------------------------------- Cursor moves

  /** Only the wrap to the previous line reads a line. */
  predicate CanCursorLeft(d: Doc) {
    d.cursor.col == 0 && d.cursor.row > 0 ==> d.cursor.row - 1 < |d.lines|
  }

  function CursorLeft(d: Doc): (r: Doc)
    requires CanCursorLeft(d)
    ensures r.lines == d.lines
    ensures d.cursor == Cursor(0, 0) ==> r == d
    ensures d.cursor.col == 0 && d.cursor.row > 0 ==>
      r.cursor == Cursor(d.cursor.row - 1, |d.lines[d.cursor.row - 1]|)
    ensures d.cursor.col > 0 ==> r.cursor == Cursor(d.cursor.row, d.cursor.col - 1)
  {
    var c := d.cursor;
    if c.col == 0 && c.row == 0 then d
    else if c.col == 0 then Doc(d.lines, Cursor(c.row - 1, |d.lines[c.row - 1]|))
    else Doc(d.lines, Cursor(c.row, c.col - 1))
  }

  predicate CanReadLine(d: Doc) {
    RowInRange(d)
  }

  function CursorRight(d: Doc): (r: Doc)
    requires CanReadLine(d)
    ensures r.lines == d.lines
    ensures d.cursor.col >= |Line(d)| && d.cursor.row == |d.lines| - 1 ==> r == d
    ensures d.cursor.col >= |Line(d)| && d.cursor.row < |d.lines| - 1 ==>
      r.cursor == Cursor(d.cursor.row + 1, 0)
    ensures d.cursor.col < |Line(d)| ==>
      r.cursor == Cursor(d.cursor.row, d.cursor.col + 1) && r.cursor.col <= |Line(d)|
  {
    var c := d.cursor;
    if c.col > |Line(d)| - 1 then
      if c.row >= |d.lines| - 1 then d
      else Doc(d.lines, Cursor(c.row + 1, 0))
    else if c.col < |Line(d)| then Doc(d.lines, Cursor(c.row, c.col + 1))
    else d
  }

  function CursorDown(d: Doc): (r: Doc)
    requires CanReadLine(d)
    ensures r.lines == d.lines
    ensures d.cursor.row == |d.lines| - 1 ==> r.cursor == Cursor(d.cursor.row, |Line(d)|)
    ensures d.cursor.row < |d.lines| - 1 ==>
      && r.cursor.row == d.cursor.row + 1
      && r.cursor.col == Min(d.cursor.col, |d.lines[d.cursor.row + 1]|)
    ensures WellFormed(r)
  {
    var c := d.cursor;
    if c.row >= |d.lines| - 1 then Doc(d.lines, Cursor(c.row, |Line(d)|))
    else Doc(d.lines, Cursor(c.row + 1, Min(c.col, |d.lines[c.row + 1]|)))
  }

  predicate CanCursorUp(d: Doc) {
    d.cursor.row > 0 ==> d.cursor.row - 1 < |d.lines|
  }

  function CursorUp(d: Doc): (r: Doc)
    requires CanCursorUp(d)
    ensures r.lines == d.lines
    ensures d.cursor.row == 0 ==> r.cursor == Cursor(0, 0)
    ensures d.cursor.row > 0 ==>
      && r.cursor.row == d.cursor.row - 1
      && r.cursor.col == Min(d.cursor.col, |d.lines[d.cursor.row - 1]|)
    ensures |d.lines| >= 1 ==> WellFormed(r)
  {
    var c := d.cursor;
    if c.row <= 0 then Doc(d.lines, Cursor(c.row, 0))
    else Doc(d.lines, Cursor(c.row - 1, Min(c.col, |d.lines[c.row - 1]|)))
  }

  function EndLine(d: Doc): (r: Doc)
    requires CanReadLine(d)
    ensures r.lines == d.lines && r.cursor == Cursor(d.cursor.row, |Line(d)|)
    ensures |d.lines| >= 1 ==> WellFormed(r)
  {
    Doc(d.lines, Cursor(d.cursor.row, |Line(d)|))
  }

  function StartLine(d: Doc): (r: Doc)
    ensures r.lines == d.lines && r.cursor == Cursor(d.cursor.row, 0)
  {
    Doc(d.lines, Cursor(d.cursor.row, 0))
  }

  /** SetText replaces the lines and leaves the cursor where it was, even past the new text. */
  function SetText(d: Doc, s: Str): (r: Doc)
    ensures r.cursor == d.cursor
    ensures |r.lines| >= 1 && Join(r.lines, NewlineByte) == s
    ensures forall i :: 0 <= i < |r.lines| ==> NewlineByte !in r.lines[i]
  {
    JoinSplit(s, NewlineByte);
    Doc(Split(s, NewlineByte), d.cursor)
  }

  // ---------------------------------------------------------------- Keyboard shortcuts

  /** The actions bound in the shortcut table of `handle_shortcuts`. */
  datatype Action = ActEndLine | ActStartLine | ActBackspace | ActTab | ActNewline
                  | ActLeft | ActRight | ActUp | ActDown | ActSelectAll

  datatype Key = KeyEnd | KeyHome | KeyBackspace | KeyTab | KeyEnter
               | KeyLeft | KeyRight | KeyUp | KeyDown | KeyA | OtherKey(code: int)

  datatype Mods = Mods(shift: bool, ctrl: bool, alt: bool, meta: bool)

  const NoMods := Mods(false, false, false, false)

  /** The table lookup for a pressed key under the held modifiers: the nine editing
      keys are bound without modifiers, Ctrl+A to SelectAll, nothing else. */
  function ShortcutAction(k: Key, m: Mods): (a: Option<Action>)
    ensures a.Some? ==> m == NoMods || (m == Mods(false, true, false, false) && k == KeyA)
    ensures m == NoMods ==> (a.None? <==> k == KeyA || k.OtherKey?)
  {
    if m == NoMods then
      match k
      case KeyEnd => Some(ActEndLine)
      case KeyHome => Some(ActStartLine)
      case KeyBackspace => Some(ActBackspace)
      case KeyTab => Some(ActTab)
      case KeyEnter => Some(ActNewline)
      case KeyLeft => Some(ActLeft)
      case KeyRight => Some(ActRight)
      case KeyUp => Some(ActUp)
      case KeyDown => Some(ActDown)
      case _ => None
    else if m == Mods(false, true, false, false) && k == KeyA then Some(ActSelectAll)
    else None
  }

  /** The actions run for the keys pressed this frame, in the order given. */
  function Actions(keys: seq<Key>, m: Mods): seq<Action>
  {
    if |keys| == 0 then []
    else
      var rest := Actions(keys[1..], m);
      match ShortcutAction(keys[0], m)
      case Some(a) => [a] + rest
      case None => rest
  }

  predicate Allowed(d: Doc, a: Action) {
    match a
    case ActEndLine => CanReadLine(d)
    case ActStartLine => true
    case ActBackspace => CanBackspace(d)
    case ActTab => CanEnterText(d)
    case ActNewline => CanNewline(d)
    case ActLeft => CanCursorLeft(d)
    case ActRight => CanReadLine(d)
    case ActUp => CanCursorUp(d)
    case ActDown => CanReadLine(d)
    case ActSelectAll => true
  }

  /** What one shortcut does to the document (SelectAll only logs). */
  function Apply(d: Doc, a: Action): Doc
    requires Allowed(d, a)
  {
    match a
    case ActEndLine => EndLine(d)
    case ActStartLine => StartLine(d)
    case ActBackspace => Backspace(d)
    case ActTab => EnterText(d, TabText)
    case ActNewline => Newline(d)
    case ActLeft => CursorLeft(d)
    case ActRight => CursorRight(d)
    case ActUp => CursorUp(d)
    case ActDown => CursorDown(d)
    case ActSelectAll => d
  }

  predicate RunAllowed(d: Doc, acts: seq<Action>)
    decreases |acts|
  {
    |acts| == 0 || (Allowed(d, acts[0]) && RunAllowed(Apply(d, acts[0]), acts[1..]))
  }

  function Run(d: Doc, acts: seq<Action>): Doc
    requires RunAllowed(d, acts)
    decreases |acts|
  {
    if |acts| == 0 then d else Run(Apply(d, acts[0]), acts[1..])
  }

  /** `TakeKeyboard`: the shortcuts run first; typed text is then inserted unless the
      buffer is read-only or Ctrl, Alt or Meta is held. */
  function KeyboardResult(d: Doc, readOnly: bool, keys: seq<Key>, m: Mods, typed: Str): Doc
    requires RunAllowed(d, Actions(keys, m))
    requires TypingAllowed(d, readOnly, keys, m, typed)
  {
    var mid := Run(d, Actions(keys, m));
    if Types(readOnly, m, typed) then EnterText(mid, typed) else mid
  }

  predicate Types(readOnly: bool, m: Mods, typed: Str) {
    !readOnly && !m.ctrl && !m.alt && !m.meta && |typed| > 0
  }

  predicate TypingAllowed(d: Doc, readOnly: bool, keys: seq<Key>, m: Mods, typed: Str)
    requires RunAllowed(d, Actions(keys, m))
  {
    Types(readOnly, m, typed) ==> CanEnterText(Run(d, Actions(keys, m)))
  }

  // ================================================================ Lemmas

  /** Every shortcut can run on a well-formed document and keeps it well formed. */
  lemma ApplyPreservesWellFormed(d: Doc, a: Action)
    requires WellFormed(d)
    ensures Allowed(d, a) && WellFormed(Apply(d, a))
  {
    match a
    case ActBackspace =>
      var r := Backspace(d);
      if d.cursor.col == 0 && d.cursor.row > 0 {
        assert |r.lines[d.cursor.row - 1]| == |d.lines[d.cursor.row - 1]| + |d.lines[d.cursor.row]|;
      }
    case ActTab =>
      var r := EnterText(d, TabText);
      assert |r.lines[d.cursor.row]| == |Line(d)| + |TabText|;
    case ActLeft =>
      if d.cursor.col == 0 && d.cursor.row > 0 {
        assert WellFormed(CursorLeft(d));
      }
    case _ =>
  }

  /** Inserting text keeps a document well formed. */
  lemma EnterTextPreservesWellFormed(d: Doc, s: Str)
    requires WellFormed(d)
    ensures WellFormed(EnterText(d, s))
  {
    var r := EnterText(d, s);
    assert |r.lines[d.cursor.row]| == |Line(d)| + |s|;
  }

  /** Any sequence of shortcuts from a well-formed document can run and leaves at
      least one line with the cursor on a line. */
  lemma {:induction false} RunPreservesWellFormed(d: Doc, acts: seq<Action>)
    requires WellFormed(d)
    ensures RunAllowed(d, acts) && WellFormed(Run(d, acts))
    decreases |acts|
  {
    if |acts| > 0 {
      ApplyPreservesWellFormed(d, acts[0]);
      RunPreservesWellFormed(Apply(d, acts[0]), acts[1..]);
    }
  }

  /** Backspace right after Newline restores the lines and the cursor. */
  lemma BackspaceUndoesNewline(d: Doc)
    requires CanNewline(d)
    ensures CanBackspace(Newline(d)) && Backspace(Newline(d)) == d
  {
    var n := Newline(d);
    var row := d.cursor.row;
    var r := Backspace(n);
    assert Line(d)[..d.cursor.col] + Line(d)[d.cursor.col..] == Line(d);
    assert r.lines == d.lines by {
      assert |r.lines| == |d.lines|;
      forall i | 0 <= i < |d.lines| ensures r.lines[i] == d.lines[i] {
        if i > row {
          assert r.lines[i] == n.lines[i + 1];
        }
      }
    }
  }

  /** `n` Backspaces in a row. */
  function Backspaces(d: Doc, n: nat): Doc
    requires RowInRange(d) && n <= d.cursor.col <= |Line(d)|
    decreases n
  {
    if n == 0 then d else Backspaces(Backspace(d), n - 1)
  }

  /** Backspace after inserting one byte removes it again. */
  lemma BackspaceUndoesOneByte(d: Doc, b: Byte)
    requires CanEnterText(d)
    ensures CanBackspace(EnterText(d, [b])) && Backspace(EnterText(d, [b])) == d
  {
    var e := EnterText(d, [b]);
    var line := Line(d);
    var col := d.cursor.col;
    assert Line(e)[..col] + Line(e)[col + 1..] == line by {
      assert Line(e) == line[..col] + [b] + line[col..];
      assert Line(e)[..col] == line[..col];
      assert Line(e)[col + 1..] == line[col..];
    }
    assert Backspace(e).lines == d.lines;
  }

  /** Inserting `s` and pressing Backspace |s| times restores the document. */
  lemma {:induction false} BackspacesUndoEnterText(d: Doc, s: Str)
    requires CanEnterText(d)
    ensures var e := EnterText(d, s);
      |s| <= e.cursor.col <= |Line(e)| && Backspaces(e, |s|) == d
    decreases |s|
  {
    var e := EnterText(d, s);
    assert |Line(e)| == |Line(d)| + |s|;
    if |s| > 0 {
      var s', b := s[..|s| - 1], s[|s| - 1];
      var m := EnterText(d, s');
      var line := Line(d);
      var col := d.cursor.col;
      assert e == EnterText(m, [b]) by {
        assert Line(m) == line[..col] + s' + line[col..];
        assert Line(m)[..col + |s'|] == line[..col] + s';
        assert Line(m)[col + |s'|..] == line[col..];
        assert s == s' + [b];
        assert Line(e) == line[..col] + s' + [b] + line[col..];
        assert Line(EnterText(m, [b])) == Line(m)[..col + |s'|] + [b] + Line(m)[col + |s'|..];
        assert e.lines == EnterText(m, [b]).lines;
      }
      BackspaceUndoesOneByte(m, b);
      BackspacesUndoEnterText(d, s');
      assert Backspace(e) == m;
      assert Backspaces(e, |s|) == Backspaces(m, |s'|);
    } else {
      assert Line(d)[..d.cursor.col] + s + Line(d)[d.cursor.col..] == Line(d);
      assert e.lines == d.lines;
    }
  }

  /** Typing "ab" into an empty buffer and pressing Backspace twice leaves one empty line at (0,0). */
  lemma TypeTwoThenEraseTwo()
    ensures var e := EnterText(Doc([[]], Cursor(0, 0)), "ab");
      CanBackspace(e) && CanBackspace(Backspace(e)) &&
      Backspace(Backspace(e)) == Doc([[]], Cursor(0, 0))
  {
    BackspacesUndoEnterText(Doc([[]], Cursor(0, 0)), "ab");
  }

  // ---------------------------------------------------------------- Offsets

  /** Bytes before line k, each line followed by one newline position. */
  function LinesBefore(lines: seq<Str>, k: nat): nat
    requires k <= |lines|
  {
    if k == 0 then 0 else LinesBefore(lines, k - 1) + |lines[k - 1]| + 1
  }

  /** The cursor as a position in the text read as one string. */
  function Offset(d: Doc): nat
    requires RowInRange(d)
  {
    LinesBefore(d.lines, d.cursor.row) + d.cursor.col
  }

  /** The position after the last byte of the document. */
  function EndOffset(lines: seq<Str>): nat
    requires |lines| >= 1
  {
    LinesBefore(lines, |lines| - 1) + |lines[|lines| - 1]|
  }

  predicate AtEnd(d: Doc) {
    |d.lines| >= 1 && d.cursor == Cursor(|d.lines| - 1, |d.lines[|d.lines| - 1]|)
  }

  lemma {:induction false} LinesBeforeGrows(lines: seq<Str>, i: nat, j: nat)
    requires i <= j <= |lines|
    ensures LinesBefore(lines, i) + (j - i) <= LinesBefore(lines, j)
    decreases j - i
  {
    if i < j {
      LinesBeforeGrows(lines, i, j - 1);
    }
  }

  /** In a well-formed document the offset never passes the end, and reaches it
      exactly at the end of the last line. */
  lemma OffsetAtMostEnd(d: Doc)
    requires WellFormed(d)
    ensures Offset(d) <= EndOffset(d.lines)
    ensures Offset(d) == EndOffset(d.lines) <==> AtEnd(d)
  {
    var n := |d.lines|;
    if d.cursor.row < n - 1 {
      LinesBeforeGrows(d.lines, d.cursor.row + 1, n - 1);
    }
  }

  /** CursorRight moves one position forward, except at the end of the document. */
  lemma CursorRightSteps(d: Doc)
    requires WellFormed(d)
    ensures WellFormed(CursorRight(d))
    ensures AtEnd(d) ==> CursorRight(d) == d
    ensures !AtEnd(d) ==> Offset(CursorRight(d)) == Offset(d) + 1
  {
  }

  /** CursorLeft moves one position back, except at the start of the document. */
  lemma CursorLeftSteps(d: Doc)
    requires WellFormed(d)
    ensures WellFormed(CursorLeft(d))
    ensures d.cursor == Cursor(0, 0) ==> CursorLeft(d) == d
    ensures d.cursor != Cursor(0, 0) ==> Offset(CursorLeft(d)) + 1 == Offset(d)
  {
  }

  /** Left undoes Right away from the end, and Right undoes Left away from the start. */
  lemma LeftRightInverse(d: Doc)
    requires WellFormed(d)
    ensures !AtEnd(d) ==> CursorLeft(CursorRight(d)) == d
    ensures d.cursor != Cursor(0, 0) ==> CursorRight(CursorLeft(d)) == d
  {
  }

  /** `n` presses of CursorRight. */
  function Rights(d: Doc, n: nat): (r: Doc)
    requires WellFormed(d)
    ensures WellFormed(r) && r.lines == d.lines
    decreases n
  {
    if n == 0 then d else Rights(CursorRight(d), n - 1)
  }

  /** From any position, as many CursorRight presses as there are positions left
      reach the end of the document, and one more press changes nothing. */
  lemma {:induction false} RightsReachEnd(d: Doc, n: nat)
    requires WellFormed(d) && Offset(d) + n == EndOffset(d.lines)
    ensures AtEnd(Rights(d, n)) && CursorRight(Rights(d, n)) == Rights(d, n)
    decreases n
  {
    OffsetAtMostEnd(d);
    if n > 0 {
      CursorRightSteps(d);
      RightsReachEnd(CursorRight(d), n - 1);
    }
  }

  /** SetText keeps the cursor, so a shorter text can leave it past the last line, where
      the source's next CursorRight, Newline or Backspace would index out of range. */
  lemma SetTextCanStrandCursor()
    ensures var d := SetText(Doc(["one", "two"], Cursor(1, 2)), "one");
      !RowInRange(d) && !CanReadLine(d) && !CanNewline(d) && !CanBackspace(d)
  {
    var parts := Split("one", NewlineByte);
    assert NewlineByte !in "one";
  }

  /** A read-only buffer ignores typed text but still runs its shortcuts, so Backspace,
      Enter and Tab change it. */
  lemma ReadOnlyStillEdits(d: Doc, keys: seq<Key>, m: Mods, typed: Str)
    requires RunAllowed(d, Actions(keys, m))
    ensures TypingAllowed(d, true, keys, m, typed)
    ensures KeyboardResult(d, true, keys, m, typed) == Run(d, Actions(keys, m))
  {
  }

  /** Enter alone, in a read-only buffer, still adds a line. */
  lemma ReadOnlyEnterAddsLine(d: Doc, typed: Str)
    requires WellFormed(d)
    ensures RunAllowed(d, Actions([KeyEnter], NoMods))
    ensures |KeyboardResult(d, true, [KeyEnter], NoMods, typed).lines| == |d.lines| + 1
  {
    assert Actions([KeyEnter], NoMods) == [ActNewline];
    assert Run(d, [ActNewline]) == Run(Newline(d), []);
  }
}
