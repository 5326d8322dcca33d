/** The TextEditor widget of text_editor.go: a line buffer and a cursor updated in
    place by the editing methods, the cursor moves and the keyboard handler. Each
    method is proved to leave `Doc()` equal to the corresponding function of
    module Buffer applied to the old document. */
module TextEdit {
  import opened GoStrings
  import opened Geometry
  import opened Widget
  import Buffer
  import Util

  class TextEditor {
    var rect: Rect
    var text: seq<Str>
    var cursor: Buffer.Cursor
    /** The tick of the last interaction, which restarts the cursor blink. */
    var lastInteractTime: nat
    var readOnly: bool
    var focused: bool
    var saved: bool
    var filepath: Str
    var filename: Str

    /** The text and cursor as a value. */
    function Doc(): Buffer.Doc
      reads this
    {
      Buffer.Doc(text, cursor)
    }

    constructor (lines: seq<Str>, readOnly: bool)
      ensures Doc() == Buffer.Doc(lines, Buffer.Cursor(0, 0))
      ensures this.readOnly == readOnly && !focused && !saved
      ensures filepath == [] && filename == [] && lastInteractTime == 0 && rect == ZeroRect
    {
      rect := ZeroRect;
      text := lines;
      cursor := Buffer.Cursor(0, 0);
      lastInteractTime := 0;
      this.readOnly := readOnly;
      focused := false;
      saved := false;
      filepath := [];
      filename := [];
    }

    /** "untitled*" without a path; otherwise the file name, marked with '*' while unsaved. */
    function Title(): (t: Str)
      reads this
      ensures |filepath| == 0 ==> t == "untitled*"
      ensures |filepath| > 0 ==>
        && |filename| <= |t| <= |filename| + 1
        && t[..|filename|] == filename
        && (|t| == |filename| + 1 <==> !saved)
        && (!saved ==> t[|t| - 1] == '*')
    {
      if filepath == [] then "untitled*"
      else
        var s := filename;
        if !saved then s + "*" else s
    }

    method KeyboardFocusLost()
      modifies this`focused
      ensures !focused
    {
      focused := false;
    }

    method Interacted(now: nat)
      modifies this`lastInteractTime
      ensures lastInteractTime == now
    {
      lastInteractTime := now;
    }

    method EnterText(s: Str, now: nat)
      requires Buffer.CanEnterText(Doc())
      modifies this`text, this`cursor, this`lastInteractTime
      ensures Doc() == Buffer.EnterText(old(Doc()), s)
      ensures lastInteractTime == now
    {
      Interacted(now);
      var before := text[cursor.row][..cursor.col];
      var after := text[cursor.row][cursor.col..];
      text := text[cursor.row := before + s + after];
      cursor := cursor.(col := cursor.col + |s|);
    }

    method Backspace(now: nat)
      requires Buffer.CanBackspace(Doc())
      modifies this`text, this`cursor, this`lastInteractTime
      ensures Doc() == Buffer.Backspace(old(Doc()))
      ensures lastInteractTime == now
    {
      Interacted(now);
      if cursor.col == 0 && cursor.row == 0 {
        return;
      }
      if cursor.col == 0 {
        var prevLineLen := 0;
        if cursor.row >= 1 {
          prevLineLen := |text[cursor.row - 1]|;
        }
        var thisLine := text[cursor.row];
        var upTo := text[..cursor.row];
        var after: seq<Str> := [];
        if cursor.row + 1 < |text| {
          after := text[cursor.row + 1..];
        }
        text := upTo + after;
        text := text[cursor.row - 1 := text[cursor.row - 1] + thisLine];
        cursor := Buffer.Cursor(cursor.row - 1, prevLineLen);
        return;
      }
      cursor := cursor.(col := Util.Min(|text[cursor.row]|, cursor.col));
      var line := text[cursor.row];
      var before := line[..cursor.col - 1];
      var after: Str := [];
      if cursor.col < |line| {
        after := line[cursor.col..];
      }
      line := before + after;
      text := text[cursor.row := line];
      cursor := cursor.(col := cursor.col - 1);
      Interacted(now);
    }

    method CursorLeft(now: nat)
      requires Buffer.CanCursorLeft(Doc())
      modifies this`cursor, this`lastInteractTime
      ensures Doc() == Buffer.CursorLeft(old(Doc()))
      ensures lastInteractTime == now
    {
      Interacted(now);
      if cursor.col == 0 && cursor.row == 0 {
        return;
      }
      if cursor.col == 0 {
        var prevLineEnd := |text[cursor.row - 1]|;
        cursor := Buffer.Cursor(cursor.row - 1, prevLineEnd);
        return;
      }
      cursor := cursor.(col := cursor.col - 1);
    }

    method CursorRight(now: nat)
      requires Buffer.CanReadLine(Doc())
      modifies this`cursor, this`lastInteractTime
      ensures Doc() == Buffer.CursorRight(old(Doc()))
      ensures lastInteractTime == now
    {
      Interacted(now);
      if cursor.col > |text[cursor.row]| - 1 {
        if cursor.row >= |text| - 1 {
          return;
        }
        cursor := Buffer.Cursor(cursor.row + 1, 0);
        return;
      }
      if cursor.col < |text[cursor.row]| {
        cursor := cursor.(col := cursor.col + 1);
      }
    }

    method CursorDown(now: nat)
      requires Buffer.CanReadLine(Doc())
      modifies this`cursor, this`lastInteractTime
      ensures Doc() == Buffer.CursorDown(old(Doc()))
      ensures lastInteractTime == now
    {
      Interacted(now);
      if cursor.row >= |text| - 1 {
        cursor := cursor.(col := |text[cursor.row]|);
        return;
      }
      cursor := cursor.(row := cursor.row + 1);
      cursor := cursor.(col := Util.Min(cursor.col, |text[cursor.row]|));
    }

    method CursorUp(now: nat)
      requires Buffer.CanCursorUp(Doc())
      modifies this`cursor, this`lastInteractTime
      ensures Doc() == Buffer.CursorUp(old(Doc()))
      ensures lastInteractTime == now
    {
      Interacted(now);
      if cursor.row <= 0 {
        cursor := cursor.(col := 0);
        return;
      }
      cursor := cursor.(row := cursor.row - 1);
      cursor := cursor.(col := Util.Min(cursor.col, |text[cursor.row]|));
    }

    method Newline(now: nat)
      requires Buffer.CanNewline(Doc())
      modifies this`text, this`cursor, this`lastInteractTime
      ensures Doc() == Buffer.Newline(old(Doc()))
      ensures lastInteractTime == now
    {
      Interacted(now);
      var line := text[cursor.row];
      var lineBefore := line[..cursor.col];
      var lineAfter := line[cursor.col..];
      var linesBefore := text[..cursor.row];
      var linesAfter: seq<Str> := [];
      if cursor.row + 1 < |text| {
        linesAfter := text[cursor.row + 1..];
      }
      var newText := linesBefore;
      newText := newText + [lineBefore, lineAfter];
      newText := newText + linesAfter;
      text := newText;
      cursor := Buffer.Cursor(cursor.row + 1, 0);
    }

    /** Replaces the text by its lines; the cursor is not clamped. */
    method SetText(s: Str)
      modifies this`text
      ensures Doc() == Buffer.SetText(old(Doc()), s)
    {
      text := Split(s, NewlineByte);
    }

    method Tab(now: nat)
      requires Buffer.CanEnterText(Doc())
      modifies this`text, this`cursor, this`lastInteractTime
      ensures Doc() == Buffer.EnterText(old(Doc()), Buffer.TabText)
      ensures lastInteractTime == now
    {
      EnterText(Buffer.TabText, now);
    }

    /** Not implemented in the source: it only logs and counts as an interaction. */
    method SelectAll(now: nat)
      modifies this`lastInteractTime
      ensures lastInteractTime == now
    {
      Interacted(now);
    }

    method EndLine(now: nat)
      requires Buffer.CanReadLine(Doc())
      modifies this`cursor, this`lastInteractTime
      ensures Doc() == Buffer.EndLine(old(Doc()))
      ensures lastInteractTime == now
    {
      cursor := cursor.(col := |text[cursor.row]|);
      Interacted(now);
    }

    method StartLine(now: nat)
      modifies this`cursor, this`lastInteractTime
      ensures Doc() == Buffer.StartLine(old(Doc()))
      ensures lastInteractTime == now
    {
      cursor := cursor.(col := 0);
      Interacted(now);
    }

    /** Runs the method bound to one shortcut. */
    method Perform(a: Buffer.Action, now: nat)
      requires Buffer.Allowed(Doc(), a)
      modifies this`text, this`cursor, this`lastInteractTime
      ensures Doc() == Buffer.Apply(old(Doc()), a)
      ensures lastInteractTime == now
    {
      match a
      case ActEndLine => EndLine(now);
      case ActStartLine => StartLine(now);
      case ActBackspace => Backspace(now);
      case ActTab => Tab(now);
      case ActNewline => Newline(now);
      case ActLeft => CursorLeft(now);
      case ActRight => CursorRight(now);
      case ActUp => CursorUp(now);
      case ActDown => CursorDown(now);
      case ActSelectAll => SelectAll(now);
    }

    /** `TakeKeyboard`: the shortcuts of the keys pressed this frame run first, then
        the typed text is inserted unless the editor is read-only or Ctrl, Alt or
        Meta is held. `keys` are the bound keys just pressed, each once, in the order
        the shortcut table happens to be visited. */
    method TakeKeyboard(keys: seq<Buffer.Key>, mods: Buffer.Mods, typed: Str, now: nat)
      requires forall i, j :: 0 <= i < j < |keys| ==> keys[i] != keys[j]
      requires Buffer.RunAllowed(Doc(), Buffer.Actions(keys, mods))
      requires Buffer.TypingAllowed(Doc(), readOnly, keys, mods, typed)
      modifies this`text, this`cursor, this`lastInteractTime
      ensures Doc() == Buffer.KeyboardResult(old(Doc()), readOnly, keys, mods, typed)
      ensures |Buffer.Actions(keys, mods)| > 0 || Buffer.Types(readOnly, mods, typed) ==>
        lastInteractTime == now
      ensures |Buffer.Actions(keys, mods)| == 0 && !Buffer.Types(readOnly, mods, typed) ==>
        lastInteractTime == old(lastInteractTime)
    {
      var acts := Buffer.Actions(keys, mods);
      var i := 0;
      while i < |acts|
        invariant 0 <= i <= |acts|
        invariant Buffer.RunAllowed(Doc(), acts[i..])
        invariant Buffer.Run(Doc(), acts[i..]) == Buffer.Run(old(Doc()), acts)
        invariant i > 0 ==> lastInteractTime == now
        invariant i == 0 ==> lastInteractTime == old(lastInteractTime)
      {
        assert acts[i..] == [acts[i]] + acts[i + 1..];
        Perform(acts[i], now);
        i := i + 1;
      }
      if readOnly {
        return;
      }
      if mods.ctrl || mods.alt || mods.meta {
        return;
      }
      if |typed| > 0 {
        EnterText(typed, now);
      }
    }

    method LMouseDown(x: int, y: int) returns (c: Consumer)
      modifies this`focused
      ensures focused && c == Self
    {
      focused := true;
      return Self;
    }

    method LMouseUp(x: int, y: int) returns (c: Consumer)
      modifies this`focused
      ensures focused && c == Self
    {
      focused := true;
      return Self;
    }

    /** The editor claims every hover that reaches it. */
    method MouseOver(x: int, y: int) returns (c: Consumer)
      ensures c == Self
    {
      return Self;
    }

    method SetRect(r: Rect)
      modifies this`rect
      ensures rect == r
    {
      rect := r;
    }
  }
}
