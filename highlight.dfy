/** The span claiming of TextEditor.DrawWithHighlighting (text_editor.go): for one
    line, the highlight rules are visited from the last to the first, each rule's
    match spans in order, and a span is painted in the rule's colour only when none
    of its bytes is already claimed; painting claims all of them. The regular
    expression matches are given as spans. */
module Highlight {
  import opened GoStrings
  import Util

  /** The colours of the style table that highlighting can use, plus the fallback. */
  datatype Paint =
    | RedMuted | RedStrong | BlueMuted | BlueStrong | GreenMuted | GreenStrong
    | YellowMuted | AquaStrong | PurpleMuted | Gray | Greenyellow

  /** The colour names a nanorc `color` line may use. */
  const ColorTable: map<Str, Paint> := map[
    "red" := RedMuted, "brightred" := RedStrong,
    "blue" := BlueMuted, "brightblue" := BlueStrong,
    "green" := GreenMuted, "brightgreen" := GreenStrong,
    "yellow" := YellowMuted, "cyan" := AquaStrong,
    "magenta" := PurpleMuted, "brightblack" := Gray]

  /** The colour of a rule: its name looked up in the table, Greenyellow when unknown. */
  function ColorFor(name: Str): (c: Paint)
    ensures c == Greenyellow <==> name !in ColorTable
    ensures name in ColorTable ==> c == ColorTable[name]
  {
    if name in ColorTable then ColorTable[name] else Greenyellow
  }

  /** A match `[start, end)` as returned by FindAllStringIndex. */
  datatype Span = Span(start: int, end: int)

  /** A highlight rule on this line: its colour name and its matches. */
  datatype Rule = Rule(fg: Str, matches: seq<Span>)

  /** A span drawn in a colour. */
  datatype Stroke = Stroke(span: Span, color: Paint)

  /** Byte k of a line of length n is inside the span, as the clipped loops
      `for i := max(0, start); i < min(n, end); i++` visit it. */
  predicate Covers(s: Span, n: nat, k: int) {
    0 <= k < n && s.start <= k < s.end
  }

  /** No byte of the span is claimed in `usage`. */
  predicate Free(usage: seq<bool>, s: Span) {
    forall k :: 0 <= k < |usage| && Covers(s, |usage|, k) ==> !usage[k]
  }

  /** `usage` with every byte of the span claimed. */
  function Mark(usage: seq<bool>, s: Span): (v: seq<bool>)
    ensures |v| == |usage|
    ensures forall k :: 0 <= k < |usage| ==> v[k] == (usage[k] || Covers(s, |usage|, k))
  {
    seq(|usage|, k requires 0 <= k < |usage| => usage[k] || Covers(s, |usage|, k))
  }

  function StrokesOf(r: Rule): (ss: seq<Stroke>)
    ensures |ss| == |r.matches|
    ensures forall j :: 0 <= j < |ss| ==> ss[j] == Stroke(r.matches[j], ColorFor(r.fg))
  {
    seq(|r.matches|, j requires 0 <= j < |r.matches| => Stroke(r.matches[j], ColorFor(r.fg)))
  }

  /** The strokes in the order they are tried: the last rule first. */
  function Candidates(rules: seq<Rule>): seq<Stroke>
    decreases |rules|
  {
    if |rules| == 0 then []
    else StrokesOf(rules[|rules| - 1]) + Candidates(rules[..|rules| - 1])
  }

  /** Every candidate is a match of some rule in that rule's colour, and every match
      of every rule is a candidate. */
  lemma {:induction false} CandidatesAreMatches(rules: seq<Rule>)
    ensures forall c :: c in Candidates(rules) <==>
      exists i, j :: 0 <= i < |rules| && 0 <= j < |rules[i].matches| &&
        c == Stroke(rules[i].matches[j], ColorFor(rules[i].fg))
    decreases |rules|
  {
    if |rules| > 0 {
      var n := |rules| - 1;
      var init := rules[..n];
      CandidatesAreMatches(init);
      assert Candidates(rules) == StrokesOf(rules[n]) + Candidates(init);
      forall c
        ensures c in Candidates(rules) <==>
          exists i, j :: 0 <= i < |rules| && 0 <= j < |rules[i].matches| &&
            c == Stroke(rules[i].matches[j], ColorFor(rules[i].fg))
      {
        if c in Candidates(rules) {
          if c in StrokesOf(rules[n]) {
            var j :| 0 <= j < |StrokesOf(rules[n])| && StrokesOf(rules[n])[j] == c;
            assert c == Stroke(rules[n].matches[j], ColorFor(rules[n].fg));
          } else {
            assert c in Candidates(init);
            var i, j :| 0 <= i < |init| && 0 <= j < |init[i].matches| &&
              c == Stroke(init[i].matches[j], ColorFor(init[i].fg));
            assert init[i] == rules[i];
          }
        }
        if exists i, j :: 0 <= i < |rules| && 0 <= j < |rules[i].matches| &&
            c == Stroke(rules[i].matches[j], ColorFor(rules[i].fg)) {
          var i, j :| 0 <= i < |rules| && 0 <= j < |rules[i].matches| &&
            c == Stroke(rules[i].matches[j], ColorFor(rules[i].fg));
          if i == n {
            assert StrokesOf(rules[n])[j] == c;
          } else {
            assert init[i] == rules[i];
            assert c in Candidates(init);
          }
        }
      }
    }
  }

  /** What claiming leaves behind: the strokes painted and the final claims. */
  datatype Painting = Painting(strokes: seq<Stroke>, usage: seq<bool>)

  /** Tries the candidates in order against the claims in `usage`. */
  function Claim(usage: seq<bool>, cands: seq<Stroke>): (p: Painting)
    ensures |p.usage| == |usage|
    ensures forall k :: 0 <= k < |usage| && usage[k] ==> p.usage[k]
    decreases |cands|
  {
    if |cands| == 0 then Painting([], usage)
    else if Free(usage, cands[0].span) then
      var rest := Claim(Mark(usage, cands[0].span), cands[1..]);
      Painting([cands[0]] + rest.strokes, rest.usage)
    else Claim(usage, cands[1..])
  }

  /** Painted strokes are candidates, were free when claiming started, and no two
      of them share a byte. */
  lemma {:induction false} ClaimDisjoint(usage: seq<bool>, cands: seq<Stroke>)
    ensures forall i :: 0 <= i < |Claim(usage, cands).strokes| ==>
      Claim(usage, cands).strokes[i] in cands
    ensures forall i :: 0 <= i < |Claim(usage, cands).strokes| ==>
      Free(usage, Claim(usage, cands).strokes[i].span)
    ensures forall i, j, k :: 0 <= i < j < |Claim(usage, cands).strokes| ==>
      !(Covers(Claim(usage, cands).strokes[i].span, |usage|, k) &&
        Covers(Claim(usage, cands).strokes[j].span, |usage|, k))
    decreases |cands|
  {
    if |cands| > 0 {
      var p := Claim(usage, cands);
      if Free(usage, cands[0].span) {
        var u := Mark(usage, cands[0].span);
        var rest := Claim(u, cands[1..]);
        ClaimDisjoint(u, cands[1..]);
        assert p.strokes == [cands[0]] + rest.strokes;
        forall i | 0 <= i < |p.strokes|
          ensures p.strokes[i] in cands && Free(usage, p.strokes[i].span)
        {
          if i > 0 {
            assert p.strokes[i] == rest.strokes[i - 1];
            assert rest.strokes[i - 1] in cands[1..];
          }
        }
        forall i, j, k | 0 <= i < j < |p.strokes|
          ensures !(Covers(p.strokes[i].span, |usage|, k) && Covers(p.strokes[j].span, |usage|, k))
        {
          assert p.strokes[j] == rest.strokes[j - 1];
          if i > 0 {
            assert p.strokes[i] == rest.strokes[i - 1];
          } else if Covers(p.strokes[i].span, |usage|, k) {
            assert u[k];
            assert Free(u, rest.strokes[j - 1].span);
          }
        }
      } else {
        ClaimDisjoint(usage, cands[1..]);
        forall i | 0 <= i < |p.strokes|
          ensures p.strokes[i] in cands
        {
          assert p.strokes[i] in cands[1..];
        }
      }
    }
  }

  /** Byte k lies in one of the strokes. */
  predicate InStrokes(strokes: seq<Stroke>, n: nat, k: int) {
    exists i :: 0 <= i < |strokes| && Covers(strokes[i].span, n, k)
  }

  /** The final claims are the starting claims plus the bytes of the painted strokes. */
  lemma {:induction false} ClaimUsage(usage: seq<bool>, cands: seq<Stroke>)
    ensures forall k :: 0 <= k < |usage| ==>
      (Claim(usage, cands).usage[k] <==> usage[k] || InStrokes(Claim(usage, cands).strokes, |usage|, k))
    decreases |cands|
  {
    if |cands| > 0 {
      var p := Claim(usage, cands);
      if Free(usage, cands[0].span) {
        var u := Mark(usage, cands[0].span);
        var rest := Claim(u, cands[1..]);
        ClaimUsage(u, cands[1..]);
        assert p.strokes == [cands[0]] + rest.strokes;
        forall k | 0 <= k < |usage|
          ensures p.usage[k] <==> usage[k] || InStrokes(p.strokes, |usage|, k)
        {
          if p.usage[k] && !usage[k] {
            if Covers(cands[0].span, |usage|, k) {
              assert Covers(p.strokes[0].span, |usage|, k);
            } else {
              var i :| 0 <= i < |rest.strokes| && Covers(rest.strokes[i].span, |usage|, k);
              assert p.strokes[i + 1] == rest.strokes[i];
            }
          }
          if InStrokes(p.strokes, |usage|, k) {
            var i :| 0 <= i < |p.strokes| && Covers(p.strokes[i].span, |usage|, k);
            if i > 0 {
              assert p.strokes[i] == rest.strokes[i - 1];
            }
          }
        }
      } else {
        ClaimUsage(usage, cands[1..]);
      }
    }
  }

  /** Claiming is greedy: a candidate that was not painted overlaps the final claims. */
  lemma {:induction false} ClaimMaximal(usage: seq<bool>, cands: seq<Stroke>)
    ensures forall i :: 0 <= i < |cands| ==>
      cands[i] in Claim(usage, cands).strokes || !Free(Claim(usage, cands).usage, cands[i].span)
    decreases |cands|
  {
    if |cands| > 0 {
      var p := Claim(usage, cands);
      if Free(usage, cands[0].span) {
        var u := Mark(usage, cands[0].span);
        ClaimMaximal(u, cands[1..]);
        forall i | 0 <= i < |cands|
          ensures cands[i] in p.strokes || !Free(p.usage, cands[i].span)
        {
          if i > 0 {
            assert cands[i] == cands[1..][i - 1];
          }
        }
      } else {
        ClaimMaximal(usage, cands[1..]);
        forall i | 0 <= i < |cands|
          ensures cands[i] in p.strokes || !Free(p.usage, cands[i].span)
        {
          if i > 0 {
            assert cands[i] == cands[1..][i - 1];
          } else {
            var k :| 0 <= k < |usage| && Covers(cands[0].span, |usage|, k) && usage[k];
            assert p.usage[k];
          }
        }
      }
    }
  }

  /** The strokes painted on a line of `n` bytes with nothing claimed yet. */
  function LineStrokes(n: nat, rules: seq<Rule>): seq<Stroke> {
    Claim(seq(n, _ => false), Candidates(rules)).strokes
  }

  /** The first match of the last rule always wins, whatever the other rules match. */
  lemma LastRuleFirst(n: nat, rules: seq<Rule>)
    requires |rules| > 0 && |rules[|rules| - 1].matches| > 0
    ensures |LineStrokes(n, rules)| > 0
    ensures LineStrokes(n, rules)[0] ==
      Stroke(rules[|rules| - 1].matches[0], ColorFor(rules[|rules| - 1].fg))
  {
    var cands := Candidates(rules);
    assert cands[0] == StrokesOf(rules[|rules| - 1])[0];
    assert Free(seq(n, _ => false), cands[0].span);
  }

  /** `already_used`: whether some byte of the span, clipped to the line, is claimed. */
  method AlreadyUsed(lineUsage: array<bool>, s: Span) returns (used: bool)
    ensures used <==> !Free(lineUsage[..], s)
  {
    var i := Util.Max(0, s.start);
    var stop := Util.Min(lineUsage.Length, s.end);
    while i < stop
      invariant Util.Max(0, s.start) <= i
      invariant forall k :: Util.Max(0, s.start) <= k < i && k < stop ==> !lineUsage[k]
      decreases stop - i
    {
      if lineUsage[i] {
        assert Covers(s, |lineUsage[..]|, i) && lineUsage[..][i];
        return true;
      }
      i := i + 1;
    }
    return false;
  }

  /** `use`: claims every byte of the span, clipped to the line. */
  method Use(lineUsage: array<bool>, s: Span)
    modifies lineUsage
    ensures lineUsage[..] == Mark(old(lineUsage[..]), s)
  {
    var i := Util.Max(0, s.start);
    var stop := Util.Min(lineUsage.Length, s.end);
    while i < stop
      invariant Util.Max(0, s.start) <= i
      invariant forall k :: 0 <= k < lineUsage.Length ==>
        lineUsage[k] == (old(lineUsage[k]) || (Covers(s, lineUsage.Length, k) && k < i))
      decreases stop - i
    {
      lineUsage[i] := true;
      i := i + 1;
    }
  }

  /** The claiming loop of DrawWithHighlighting for one line of `n` bytes: returns
      the strokes it draws over the line, in drawing order. */
  method PaintLine(n: nat, rules: seq<Rule>) returns (strokes: seq<Stroke>)
    ensures strokes == LineStrokes(n, rules)
  {
    var lineUsage := new bool[n](_ => false);
    strokes := [];
    if |rules| == 0 {
      return;
    }
    var i := |rules| - 1;
    assert rules[..i + 1] == rules;
    assert lineUsage[..] == seq(n, _ => false);
    while i >= 0
      invariant -1 <= i < |rules|
      invariant strokes + Claim(lineUsage[..], Candidates(rules[..i + 1])).strokes == LineStrokes(n, rules)
    {
      assert rules[..i + 1][..i] == rules[..i];
      assert Candidates(rules[..i + 1]) == StrokesOf(rules[i]) + Candidates(rules[..i]);
      var drawn := PaintRule(lineUsage, rules[i], Candidates(rules[..i]));
      strokes := strokes + drawn;
      assert rules[..i - 1 + 1] == rules[..i];
      i := i - 1;
    }
  }

  /** The inner loop of the claiming: the matches of one rule, in order, each drawn
      and claimed when none of its bytes is claimed yet. `later` are the candidates
      still to come after this rule's. */
  method PaintRule(lineUsage: array<bool>, exp: Rule, ghost later: seq<Stroke>) returns (drawn: seq<Stroke>)
    modifies lineUsage
    ensures drawn + Claim(lineUsage[..], later).strokes == Claim(old(lineUsage[..]), StrokesOf(exp) + later).strokes
  {
    var color := ColorFor(exp.fg);
    drawn := [];
    var j := 0;
    while j < |exp.matches|
      invariant 0 <= j <= |exp.matches|
      invariant drawn + Claim(lineUsage[..], StrokesOf(exp)[j..] + later).strokes
        == Claim(old(lineUsage[..]), StrokesOf(exp) + later).strokes
    {
      var span := exp.matches[j];
      ghost var rest := StrokesOf(exp)[j + 1..] + later;
      assert StrokesOf(exp)[j..] + later == [Stroke(span, color)] + rest;
      var used := AlreadyUsed(lineUsage, span);
      if !used {
        drawn := drawn + [Stroke(span, color)];
        Use(lineUsage, span);
      }
      j := j + 1;
    }
    assert StrokesOf(exp)[j..] + later == later;
  }
}
