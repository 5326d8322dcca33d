/** `ParseHighlighter` of syntax_highlighting.go: a nanorc definition is read line
    by line, each line split on spaces and dispatched on its first word. Regular
    expressions are not compiled here: `compiles` says which patterns the regexp
    package accepts, and a compiled expression is represented by its pattern. */
module Syntax {
  import opened GoStrings
  import opened Wrappers

  /** `HighlightedExpression`: `reg` is None for the nil regexp a failed compilation leaves. */
  datatype Expression = Expression(reg: Option<Str>, fg: Str, bg: Str)

  /** `Highlighter`: `fileEnding` is None for the zero `regexp.Regexp` it starts with. */
  datatype Highlighter = Highlighter(name: Str, fileEnding: Option<Str>, comment: Str, expressions: seq<Expression>)

  /** The record ParseHighlighter starts from. */
  const Initial := Highlighter([], None, [], [])

  /** How parsing ends: the record and no error, the record as it stood and an error
      (a `syntax` pattern that does not compile), or an index or slice panic on a
      line with too few words or a word too short to unquote. */
  datatype Outcome = Parsed(hl: Highlighter) | SyntaxError(hl: Highlighter) | Panicked

  const SyntaxWord: Str := "syntax"
  const CommentWord: Str := "comment"
  const ColorWord: Str := "color"
  const CommaByte: Byte := ','
  const QuoteByte: Byte := '"'

  /** The foreground and background colour names of a `color` line's colour word:
      the first two pieces of its comma split, the background empty without a comma. */
  function ColorsOf(colordef: Str): (Str, Str)
  {
    var pieces := Split(colordef, CommaByte);
    if |pieces| == 1 then (pieces[0], []) else (pieces[0], pieces[1])
  }

  /** The expression a `color` line appends: colours from its second word, pattern from its last. */
  function ColorExpression(colordef: Str, quoted: Str, compiles: Str -> bool): Expression
    requires |quoted| >= 2
  {
    var (fg, bg) := ColorsOf(colordef);
    var pattern := Unquote(quoted);
    Expression(if compiles(pattern) then Some(pattern) else None, fg, bg)
  }

  /** What one line, split into its space-separated words, does to the record;
      `Parsed` means parsing goes on. */
  function ParseWords(hl: Highlighter, parts: seq<Str>, compiles: Str -> bool): Outcome
    requires |parts| >= 1
  {
    if parts[0] == SyntaxWord then
      if |parts| < 3 || |parts[2]| < 2 then Panicked
      else if !compiles(Unquote(parts[2])) then SyntaxError(hl)
      else Parsed(hl.(name := parts[1], fileEnding := Some(Unquote(parts[2]))))
    else if parts[0] == CommentWord then
      if |parts| < 2 || |parts[1]| < 2 then Panicked
      else Parsed(hl.(comment := Unquote(parts[1])))
    else if parts[0] == ColorWord then
      if |parts| < 2 || |parts[|parts| - 1]| < 2 then Panicked
      else Parsed(hl.(expressions := hl.expressions + [ColorExpression(parts[1], parts[|parts| - 1], compiles)]))
    else Parsed(hl)
  }

  function ParseLine(hl: Highlighter, line: Str, compiles: Str -> bool): Outcome
  {
    ParseWords(hl, Split(line, SpaceByte), compiles)
  }

  /** The lines parsed in order from `hl`, stopping at the first error or panic. */
  function ParseFrom(hl: Highlighter, lines: seq<Str>, compiles: Str -> bool): Outcome
    decreases |lines|
  {
    if |lines| == 0 then Parsed(hl)
    else
      match ParseLine(hl, lines[0], compiles)
      case Parsed(next) => ParseFrom(next, lines[1..], compiles)
      case SyntaxError(h) => SyntaxError(h)
      case Panicked => Panicked
  }

  /** The body of the loop of `ParseHighlighter`: the switch on a line's first word. */
  method ParseOneLine(hl: Highlighter, line: Str, compiles: Str -> bool) returns (o: Outcome)
    ensures o == ParseLine(hl, line, compiles)
  {
    var parts := Split(line, SpaceByte);
    if parts[0] == SyntaxWord {
      if |parts| < 2 {
        return Panicked;
      }
      var lang := parts[1];
      if |parts| < 3 || |parts[2]| < 2 {
        return Panicked;
      }
      var pattern := Unquote(parts[2]);
      if !compiles(pattern) {
        return SyntaxError(hl);
      }
      return Parsed(hl.(name := lang, fileEnding := Some(pattern)));
    } else if parts[0] == CommentWord {
      if |parts| < 2 || |parts[1]| < 2 {
        return Panicked;
      }
      return Parsed(hl.(comment := Unquote(parts[1])));
    } else if parts[0] == ColorWord {
      if |parts| < 2 {
        return Panicked;
      }
      var colorParts := Split(parts[1], CommaByte);
      var fg, bg := colorParts[0], [];
      if |colorParts| != 1 {
        bg := colorParts[1];
      }
      var quoted := parts[|parts| - 1];
      if |quoted| < 2 {
        return Panicked;
      }
      var pattern := Unquote(quoted);
      var reg := None;
      if compiles(pattern) {
        reg := Some(pattern);
      }
      return Parsed(hl.(expressions := hl.expressions + [Expression(reg, fg, bg)]));
    }
    return Parsed(hl);
  }

  /** `ParseHighlighter(source)`: the loop over the lines of `source`, updating a local record
      and returning early on an error. */
  method ParseHighlighter(source: Str, compiles: Str -> bool) returns (o: Outcome)
    ensures o == ParseFrom(Initial, Split(source, NewlineByte), compiles)
  {
    var hl := Initial;
    var lines := Split(source, NewlineByte);
    var i := 0;
    while i < |lines|
      invariant 0 <= i <= |lines|
      invariant ParseFrom(hl, lines[i..], compiles) == ParseFrom(Initial, lines, compiles)
    {
      assert ParseFrom(hl, lines[i..], compiles) == match ParseLine(hl, lines[i], compiles)
        case Parsed(next) => ParseFrom(next, lines[i + 1..], compiles)
        case SyntaxError(h) => SyntaxError(h)
        case Panicked => Panicked;
      var step := ParseOneLine(hl, lines[i], compiles);
      if !step.Parsed? {
        return step;
      }
      hl := step.hl;
      i := i + 1;
    }
    assert lines[i..] == [];
    return Parsed(hl);
  }

  /** Parsing two runs of lines one after the other: the second starts from where the first stopped, unless the first stopped early. */
  lemma {:induction false} ParseAppend(hl: Highlighter, a: seq<Str>, b: seq<Str>, compiles: Str -> bool)
    ensures ParseFrom(hl, a + b, compiles) ==
      match ParseFrom(hl, a, compiles)
      case Parsed(h) => ParseFrom(h, b, compiles)
      case SyntaxError(h) => SyntaxError(h)
      case Panicked => Panicked
    decreases |a|
  {
    if |a| == 0 {
      assert a + b == b;
    } else {
      assert (a + b)[0] == a[0];
      assert (a + b)[1..] == a[1..] + b;
      match ParseLine(hl, a[0], compiles)
      case Parsed(next) => ParseAppend(next, a[1..], b, compiles);
      case SyntaxError(h) =>
      case Panicked =>
    }
  }

  /** The first space-separated word of a line. */
  function FirstWord(line: Str): Str
  {
    Split(line, SpaceByte)[0]
  }

  /** A line whose first word is not `syntax`, `comment` or `color` is ignored wherever it stands. */
  lemma UnknownLineIgnored(hl: Highlighter, a: seq<Str>, line: Str, b: seq<Str>, compiles: Str -> bool)
    requires FirstWord(line) !in {SyntaxWord, CommentWord, ColorWord}
    ensures ParseFrom(hl, a + [line] + b, compiles) == ParseFrom(hl, a + b, compiles)
  {
    assert a + [line] + b == a + ([line] + b);
    ParseAppend(hl, a, [line] + b, compiles);
    ParseAppend(hl, a, b, compiles);
    match ParseFrom(hl, a, compiles)
    case Parsed(h) =>
      assert ([line] + b)[1..] == b;
      assert ParseLine(h, line, compiles) == Parsed(h);
    case SyntaxError(h) =>
    case Panicked =>
  }

  /** Text without spaces or newlines: one word of a nanorc line. */
  predicate IsWord(s: Str) {
    SpaceByte !in s && NewlineByte !in s
  }

  /** A pattern between double quotes. */
  function Quote(s: Str): (q: Str)
    ensures |q| == |s| + 2 && Unquote(q) == s
    ensures IsWord(s) ==> IsWord(q)
  {
    [QuoteByte] + s + [QuoteByte]
  }

  predicate AllWords(words: seq<Str>) {
    forall i :: 0 <= i < |words| ==> IsWord(words[i])
  }

  lemma AllWordsAppend(a: seq<Str>, b: seq<Str>)
    requires AllWords(a) && AllWords(b)
    ensures AllWords(a + b)
  {
    forall i | 0 <= i < |a + b|
      ensures IsWord((a + b)[i])
    {
      if i >= |a| {
        assert (a + b)[i] == b[i - |a|];
      }
    }
  }

  /** Splitting a line made of words joined by spaces gives back those words. */
  lemma WordsOf(words: seq<Str>)
    requires |words| >= 1 && AllWords(words)
    ensures Split(Join(words, SpaceByte), SpaceByte) == words
    ensures NewlineByte !in Join(words, SpaceByte)
  {
    SplitJoin(words, SpaceByte);
    JoinAvoids(words, SpaceByte, NewlineByte);
  }

  /** `syntax <lang> "<pattern>" ...`: sets the name and the file-ending pattern, or stops with an error if the pattern does not compile. */
  lemma SyntaxLine(hl: Highlighter, lang: Str, pattern: Str, rest: seq<Str>, compiles: Str -> bool)
    requires IsWord(lang) && IsWord(pattern) && AllWords(rest)
    ensures ParseLine(hl, Join([SyntaxWord, lang, Quote(pattern)] + rest, SpaceByte), compiles) ==
      if compiles(pattern) then Parsed(hl.(name := lang, fileEnding := Some(pattern))) else SyntaxError(hl)
  {
    var words := [SyntaxWord, lang, Quote(pattern)] + rest;
    assert IsWord(SyntaxWord) && IsWord(Quote(pattern));
    AllWordsAppend([SyntaxWord, lang, Quote(pattern)], rest);
    WordsOf(words);
    assert words[0] == SyntaxWord && words[1] == lang && words[2] == Quote(pattern);
  }

  /** `comment "<text>" ...`: sets the comment to the text between the quotes. */
  lemma CommentLine(hl: Highlighter, text: Str, rest: seq<Str>, compiles: Str -> bool)
    requires IsWord(text) && AllWords(rest)
    ensures ParseLine(hl, Join([CommentWord, Quote(text)] + rest, SpaceByte), compiles) ==
      Parsed(hl.(comment := text))
  {
    var words := [CommentWord, Quote(text)] + rest;
    assert IsWord(CommentWord) && IsWord(Quote(text));
    AllWordsAppend([CommentWord, Quote(text)], rest);
    WordsOf(words);
    assert words[0] == CommentWord && words[1] == Quote(text);
  }

  /** `color <fg>[,<bg>] ... "<pattern>"`: appends one expression whose colours come
      from the second word and whose pattern comes from the last word only, nil when
      it does not compile; the words in between are ignored. */
  lemma ColorLine(hl: Highlighter, colordef: Str, middle: seq<Str>, pattern: Str, compiles: Str -> bool)
    requires IsWord(colordef) && IsWord(pattern) && AllWords(middle)
    ensures ParseLine(hl, Join([ColorWord, colordef] + middle + [Quote(pattern)], SpaceByte), compiles) ==
      Parsed(hl.(expressions := hl.expressions +
        [Expression(if compiles(pattern) then Some(pattern) else None, ColorsOf(colordef).0, ColorsOf(colordef).1)]))
  {
    var words := [ColorWord, colordef] + middle + [Quote(pattern)];
    assert IsWord(ColorWord) && IsWord(Quote(pattern));
    AllWordsAppend([ColorWord, colordef], middle);
    AllWordsAppend([ColorWord, colordef] + middle, [Quote(pattern)]);
    WordsOf(words);
    assert words[0] == ColorWord && words[1] == colordef && words[|words| - 1] == Quote(pattern);
  }

  /** Without a comma the whole word is the foreground and the background is empty. */
  lemma ForegroundOnly(colordef: Str)
    requires CommaByte !in colordef
    ensures ColorsOf(colordef) == (colordef, [])
  {
    SplitJoin([colordef], CommaByte);
  }

  /** `fg,bg` gives both colours. */
  lemma ForegroundAndBackground(fg: Str, bg: Str)
    requires CommaByte !in fg && CommaByte !in bg
    ensures ColorsOf(fg + [CommaByte] + bg) == (fg, bg)
  {
    SplitJoin([fg, bg], CommaByte);
  }

  /** A `syntax` line whose pattern does not compile ends parsing with the record as it stood; the lines after it are never read. */
  lemma {:induction false} SyntaxErrorStops(hl: Highlighter, before: seq<Str>, line: Str, after: seq<Str>, compiles: Str -> bool)
    requires ParseFrom(hl, before, compiles).Parsed?
    requires ParseLine(ParseFrom(hl, before, compiles).hl, line, compiles).SyntaxError?
    ensures ParseFrom(hl, before + [line] + after, compiles) == SyntaxError(ParseFrom(hl, before, compiles).hl)
  {
    assert before + [line] + after == before + ([line] + after);
    ParseAppend(hl, before, [line] + after, compiles);
  }

  /** Whether a line is a well-formed `color` line. */
  predicate IsColorLine(line: Str) {
    var parts := Split(line, SpaceByte);
    parts[0] == ColorWord && |parts| >= 2 && |parts[|parts| - 1]| >= 2
  }

  /** The expression a `color` line appends. */
  function LineExpression(line: Str, compiles: Str -> bool): Expression
    requires IsColorLine(line)
  {
    var parts := Split(line, SpaceByte);
    ColorExpression(parts[1], parts[|parts| - 1], compiles)
  }

  /** The expressions of the `color` lines, one per line, in file order. */
  function ColorExpressions(lines: seq<Str>, compiles: Str -> bool): seq<Expression>
  {
    if |lines| == 0 then []
    else
      var rest := ColorExpressions(lines[1..], compiles);
      if IsColorLine(lines[0]) then [LineExpression(lines[0], compiles)] + rest
      else rest
  }

  /** A successful parse appends exactly one expression per `color` line, in file
      order, whether or not its pattern compiles. */
  lemma {:induction false} ParsedExpressions(hl: Highlighter, lines: seq<Str>, compiles: Str -> bool)
    requires ParseFrom(hl, lines, compiles).Parsed?
    ensures ParseFrom(hl, lines, compiles).hl.expressions == hl.expressions + ColorExpressions(lines, compiles)
    decreases |lines|
  {
    if |lines| == 0 {
    } else {
      var parts := Split(lines[0], SpaceByte);
      var step := ParseLine(hl, lines[0], compiles);
      assert step.Parsed?;
      var next := step.hl;
      ParsedExpressions(next, lines[1..], compiles);
      assert ParseFrom(hl, lines, compiles) == ParseFrom(next, lines[1..], compiles);
      var rest := ColorExpressions(lines[1..], compiles);
      if IsColorLine(lines[0]) {
        var e := LineExpression(lines[0], compiles);
        assert next.expressions == hl.expressions + [e];
        assert ColorExpressions(lines, compiles) == [e] + rest;
        assert hl.expressions + [e] + rest == hl.expressions + ([e] + rest);
      } else {
        assert next.expressions == hl.expressions;
        assert ColorExpressions(lines, compiles) == rest;
      }
    }
  }

  /** The pattern of a compiled expression, empty for a nil one. */
  function PatternOf(e: Expression): Str {
    if e.reg.Some? then e.reg.value else []
  }

  /** The `syntax` line of a highlighter: `syntax name "pattern"`. */
  function SyntaxText(h: Highlighter): Str
    requires h.fileEnding.Some?
  {
    Join([SyntaxWord, h.name, Quote(h.fileEnding.value)], SpaceByte)
  }

  /** The `comment` line of a highlighter: `comment "text"`. */
  function CommentText(h: Highlighter): Str
  {
    Join([CommentWord, Quote(h.comment)], SpaceByte)
  }

  /** The `color` line of an expression: `color fg,bg "pattern"`. */
  function ColorText(e: Expression): Str
  {
    Join([ColorWord, e.fg + [CommaByte] + e.bg, Quote(PatternOf(e))], SpaceByte)
  }

  function ColorTexts(es: seq<Expression>): (lines: seq<Str>)
    ensures |lines| == |es|
    ensures forall i :: 0 <= i < |es| ==> lines[i] == ColorText(es[i])
  {
    if |es| == 0 then [] else [ColorText(es[0])] + ColorTexts(es[1..])
  }

  /** The lines of a nanorc file for `h`: its syntax line, its comment line and one colour line per expression. */
  function RenderLines(h: Highlighter): seq<Str>
    requires h.fileEnding.Some?
  {
    [SyntaxText(h), CommentText(h)] + ColorTexts(h.expressions)
  }

  function Render(h: Highlighter): Str
    requires h.fileEnding.Some?
  {
    Join(RenderLines(h), NewlineByte)
  }

  /** An expression a nanorc line can express: plain words, colours without commas, a pattern that compiles. */
  predicate Writable(e: Expression, compiles: Str -> bool) {
    && e.reg.Some? && IsWord(e.reg.value) && compiles(e.reg.value)
    && IsWord(e.fg) && IsWord(e.bg) && CommaByte !in e.fg && CommaByte !in e.bg
  }

  /** A highlighter a nanorc file can express. */
  predicate Renderable(h: Highlighter, compiles: Str -> bool) {
    && IsWord(h.name) && IsWord(h.comment)
    && h.fileEnding.Some? && IsWord(h.fileEnding.value) && compiles(h.fileEnding.value)
    && forall i :: 0 <= i < |h.expressions| ==> Writable(h.expressions[i], compiles)
  }

  /** One line that parses, then the rest from the record it leaves. */
  lemma ParseCons(hl: Highlighter, line: Str, rest: seq<Str>, next: Highlighter, compiles: Str -> bool)
    requires ParseLine(hl, line, compiles) == Parsed(next)
    ensures ParseFrom(hl, [line] + rest, compiles) == ParseFrom(next, rest, compiles)
  {
    assert ([line] + rest)[0] == line;
    assert ([line] + rest)[1..] == rest;
  }

  /** Lines that are all `color` lines append their expressions and change nothing else. */
  lemma {:induction false} ParseColorLines(hl: Highlighter, lines: seq<Str>, compiles: Str -> bool)
    requires forall i :: 0 <= i < |lines| ==> IsColorLine(lines[i])
    ensures ParseFrom(hl, lines, compiles) == Parsed(hl.(expressions := hl.expressions + ColorExpressions(lines, compiles)))
    decreases |lines|
  {
    if |lines| == 0 {
      assert hl.expressions + [] == hl.expressions;
    } else {
      var e := LineExpression(lines[0], compiles);
      var next := hl.(expressions := hl.expressions + [e]);
      assert ParseLine(hl, lines[0], compiles) == Parsed(next);
      ParseColorLines(next, lines[1..], compiles);
      var rest := ColorExpressions(lines[1..], compiles);
      assert ColorExpressions(lines, compiles) == [e] + rest;
      assert hl.expressions + [e] + rest == hl.expressions + ([e] + rest);
    }
  }

  lemma SyntaxTextWords(h: Highlighter)
    requires h.fileEnding.Some? && IsWord(h.name) && IsWord(h.fileEnding.value)
    ensures Split(SyntaxText(h), SpaceByte) == [SyntaxWord, h.name, Quote(h.fileEnding.value)]
    ensures NewlineByte !in SyntaxText(h)
  {
    assert IsWord(SyntaxWord);
    assert AllWords([SyntaxWord, h.name, Quote(h.fileEnding.value)]);
    WordsOf([SyntaxWord, h.name, Quote(h.fileEnding.value)]);
  }

  lemma CommentTextWords(h: Highlighter)
    requires IsWord(h.comment)
    ensures Split(CommentText(h), SpaceByte) == [CommentWord, Quote(h.comment)]
    ensures NewlineByte !in CommentText(h)
  {
    assert IsWord(CommentWord);
    assert AllWords([CommentWord, Quote(h.comment)]);
    WordsOf([CommentWord, Quote(h.comment)]);
  }

  lemma ColorTextWords(e: Expression)
    requires IsWord(e.fg) && IsWord(e.bg) && IsWord(PatternOf(e))
    ensures Split(ColorText(e), SpaceByte) == [ColorWord, e.fg + [CommaByte] + e.bg, Quote(PatternOf(e))]
    ensures NewlineByte !in ColorText(e)
  {
    assert IsWord(ColorWord);
    assert AllWords([ColorWord, e.fg + [CommaByte] + e.bg, Quote(PatternOf(e))]);
    WordsOf([ColorWord, e.fg + [CommaByte] + e.bg, Quote(PatternOf(e))]);
  }

  lemma SyntaxTextParses(h: Highlighter, compiles: Str -> bool)
    requires Renderable(h, compiles)
    ensures ParseLine(Initial, SyntaxText(h), compiles) == Parsed(Initial.(name := h.name, fileEnding := h.fileEnding))
  {
    SyntaxTextWords(h);
  }

  lemma CommentTextParses(hl: Highlighter, h: Highlighter, compiles: Str -> bool)
    requires IsWord(h.comment)
    ensures ParseLine(hl, CommentText(h), compiles) == Parsed(hl.(comment := h.comment))
  {
    CommentTextWords(h);
  }

  /** The colour line of a writable expression is a `color` line that yields that expression. */
  lemma ColorTextExpression(e: Expression, compiles: Str -> bool)
    requires Writable(e, compiles)
    ensures IsColorLine(ColorText(e))
    ensures LineExpression(ColorText(e), compiles) == e
  {
    ColorTextWords(e);
    ForegroundAndBackground(e.fg, e.bg);
  }

  /** `color` lines that yield given expressions, in order, yield exactly those. */
  lemma {:induction false} ExpressionsOfColorLines(lines: seq<Str>, es: seq<Expression>, compiles: Str -> bool)
    requires |lines| == |es|
    requires forall i :: 0 <= i < |lines| ==> IsColorLine(lines[i]) && LineExpression(lines[i], compiles) == es[i]
    ensures ColorExpressions(lines, compiles) == es
    decreases |lines|
  {
    if |lines| > 0 {
      ExpressionsOfColorLines(lines[1..], es[1..], compiles);
      assert es == [es[0]] + es[1..];
    }
  }

  /** The colour lines of writable expressions are `color` lines that yield those expressions back. */
  lemma ColorTextsExpressions(es: seq<Expression>, compiles: Str -> bool)
    requires forall i :: 0 <= i < |es| ==> Writable(es[i], compiles)
    ensures forall i :: 0 <= i < |es| ==> IsColorLine(ColorTexts(es)[i])
    ensures ColorExpressions(ColorTexts(es), compiles) == es
  {
    var lines := ColorTexts(es);
    forall i | 0 <= i < |es|
      ensures IsColorLine(lines[i]) && LineExpression(lines[i], compiles) == es[i]
    {
      ColorTextExpression(es[i], compiles);
    }
    ExpressionsOfColorLines(lines, es, compiles);
  }

  /** The rendered file splits back into its lines. */
  lemma RenderSplits(h: Highlighter, compiles: Str -> bool)
    requires Renderable(h, compiles)
    ensures Split(Render(h), NewlineByte) == RenderLines(h)
  {
    var colors := ColorTexts(h.expressions);
    forall i | 0 <= i < |colors|
      ensures NewlineByte !in colors[i]
    {
      ColorTextWords(h.expressions[i]);
    }
    var lines := RenderLines(h);
    assert NewlineByte !in lines[0] by {
      SyntaxTextWords(h);
    }
    assert NewlineByte !in lines[1] by {
      CommentTextWords(h);
    }
    assert forall i :: 2 <= i < |lines| ==> lines[i] == colors[i - 2];
    SplitJoin(lines, NewlineByte);
  }

  /** After the syntax line: the comment line, then the colour lines. */
  lemma ParseAfterSyntax(h: Highlighter, compiles: Str -> bool)
    requires Renderable(h, compiles)
    ensures ParseFrom(Initial.(name := h.name, fileEnding := h.fileEnding), [CommentText(h)] + ColorTexts(h.expressions), compiles) == Parsed(h)
  {
    var colors := ColorTexts(h.expressions);
    var h1 := Initial.(name := h.name, fileEnding := h.fileEnding);
    var h2 := h1.(comment := h.comment);
    CommentTextParses(h1, h, compiles);
    ParseCons(h1, CommentText(h), colors, h2, compiles);
    ColorTextsExpressions(h.expressions, compiles);
    ParseColorLines(h2, colors, compiles);
    assert [] + h.expressions == h.expressions;
  }

  lemma ParseRenderLines(h: Highlighter, compiles: Str -> bool)
    requires Renderable(h, compiles)
    ensures ParseFrom(Initial, RenderLines(h), compiles) == Parsed(h)
  {
    SyntaxTextParses(h, compiles);
    var rest := [CommentText(h)] + ColorTexts(h.expressions);
    assert RenderLines(h) == [SyntaxText(h)] + rest;
    ParseCons(Initial, SyntaxText(h), rest, Initial.(name := h.name, fileEnding := h.fileEnding), compiles);
    ParseAfterSyntax(h, compiles);
  }

  /** Round trip: parsing the nanorc file rendered from a highlighter gives that highlighter back. */
  lemma ParseRender(h: Highlighter, compiles: Str -> bool)
    requires Renderable(h, compiles)
    ensures ParseFrom(Initial, Split(Render(h), NewlineByte), compiles) == Parsed(h)
  {
    RenderSplits(h, compiles);
    ParseRenderLines(h, compiles);
  }
}
