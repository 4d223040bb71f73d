/**
 * The grammar of the scrapbox markup scanner (the rule comments of
 * scrapbox/scan.peg.go), as pure functions: one function per rule and per
 * alternative, each giving the outcome of parsing the runes `s` from index
 * `i` and the list of tokens the generated code adds on that path, in the
 * order it adds them (a rule's own token after the tokens of its parts).
 *
 * Positions range over `0..|s|`, where index `|s|` stands for the
 * `endSymbol` sentinel that `reset` appends to the runes: a rune test at
 * `|s|` fails, and `.` does not match there.
 */
module Grammar {

  /** `pegRule`, numbered as in the generated code. */
  datatype PegRule =
    | RuleUnknown | RuleRoot | RuleEOT | RuleExpression | RuleLiteral | RuleBracketText
    | RuleInnerDecoratedText | RulePlainTextLine | RulePegText
    | RuleAction0 | RuleAction1 | RuleAction2 | RuleAction3 | RuleAction4 | RuleAction5
    | RuleAction6 | RuleAction7 | RuleAction8 | RuleAction9 | RuleAction10

  /** `token32`: a rule and the rune span `[begin, end)` it covers. */
  datatype Token32 = Token32(rule: PegRule, begin: nat, end: nat)

  /** The sentinel rune (`endSymbol`): one past the largest code point. */
  const End: int := 1114112

  /** The outcome of a rule at a position: failure, or the end position and the tokens added. */
  datatype Match = NoMatch | Matched(end: nat, toks: seq<Token32>)

  /** Every token lies inside `[i, j]` and has `begin <= end`. */
  predicate Within(toks: seq<Token32>, i: nat, j: nat)
  {
    forall k :: 0 <= k < |toks| ==> i <= toks[k].begin <= toks[k].end <= j
  }

  /** No token is one of the two error actions of root's fallback alternatives. */
  predicate NoErrorActions(toks: seq<Token32>)
  {
    forall k :: 0 <= k < |toks| ==> toks[k].rule != RuleAction0 && toks[k].rule != RuleAction1
  }

  /** The concatenation of token lists inside `[i, j]` and `[h, k]` lies inside `[i, k]`. */
  lemma WithinAppend(a: seq<Token32>, b: seq<Token32>, i: nat, j: nat, h: nat, k: nat)
    requires Within(a, i, j) && Within(b, h, k) && i <= h && j <= k
    ensures Within(a + b, i, k)
  {
    forall n | 0 <= n < |a + b|
      ensures i <= (a + b)[n].begin <= (a + b)[n].end <= k
    {
      if n >= |a| {
        assert (a + b)[n] == b[n - |a|];
      }
    }
  }

  /** A rune class: anything outside a stop set, or one given rune. */
  datatype CharClass = Except(stops: set<char>) | Only(c: char)

  predicate InClass(cls: CharClass, c: char)
  {
    match cls
    case Except(stops) => c !in stops
    case Only(d) => c == d
  }

  /** The end of the longest run of class `cls` that starts at `i`; the sentinel ends every run. */
  function Span(s: string, i: nat, cls: CharClass): (j: nat)
    requires i <= |s|
    ensures i <= j <= |s|
    ensures forall k :: i <= k < j ==> InClass(cls, s[k])
    ensures j == |s| || !InClass(cls, s[j])
    decreases |s| - i
  {
    if i < |s| && InClass(cls, s[i]) then Span(s, i + 1, cls) else i
  }

  /** A run is determined by where it stops: a stop at `j` after class runes is the span. */
  lemma SpanAt(s: string, i: nat, j: nat, cls: CharClass)
    requires i <= j <= |s|
    requires forall k :: i <= k < j ==> InClass(cls, s[k])
    requires j == |s| || !InClass(cls, s[j])
    ensures Span(s, i, cls) == j
  {
  }

  /** A rule's own token after the tokens of its alternative. */
  function Wrap(m: Match, rule: PegRule, i: nat): (w: Match)
    ensures w.Matched? <==> m.Matched?
    ensures w.Matched? ==> w.end == m.end
    ensures w.Matched? && i <= m.end && Within(m.toks, i, m.end) && NoErrorActions(m.toks)
            && rule != RuleAction0 && rule != RuleAction1
            ==> Within(w.toks, i, w.end) && NoErrorActions(w.toks)
  {
    if m.NoMatch? then NoMatch else Matched(m.end, m.toks + [Token32(rule, i, m.end)])
  }

  /** PEG ordered choice: the second alternative is tried only when the first fails. */
  function Or(a: Match, b: Match): Match
  {
    if a.Matched? then a else b
  }

  /** The runes that end a plain text line. */
  const LineStops: set<char> := {']', '[', '\n'}

  /** `plainTextLine <- <(!(']' / '[' / '\n') .)+>` */
  function PlainTextLine(s: string, i: nat): (m: Match)
    requires i <= |s|
    ensures m.Matched? <==> i < |s| && s[i] !in LineStops
    ensures m.Matched? ==>
              && i < m.end <= |s|
              && (forall k :: i <= k < m.end ==> s[k] !in LineStops)
              && (m.end == |s| || s[m.end] in LineStops)
              && m.toks == [Token32(RulePlainTextLine, i, m.end)]
  {
    var j := Span(s, i, Except(LineStops));
    if j == i then NoMatch else Matched(j, [Token32(RulePlainTextLine, i, j)])
  }

  /** `symbol ' ' <plainTextLine> action`: one of the three decorations. */
  function DecoratedAlt(s: string, i: nat, symbol: char, action: PegRule): (m: Match)
    requires i <= |s|
    ensures m.Matched? <==> i + 2 <= |s| && s[i] == symbol && s[i + 1] == ' ' && PlainTextLine(s, i + 2).Matched?
    ensures m.Matched? ==>
              && m.end == PlainTextLine(s, i + 2).end
              && m.toks == PlainTextLine(s, i + 2).toks
                           + [Token32(RulePegText, i + 2, m.end), Token32(action, m.end, m.end)]
    ensures m.Matched? ==> i + 2 < m.end <= |s| && Within(m.toks, i, m.end)
    ensures m.Matched? && symbol !in LineStops ==> PlainTextLine(s, i).Matched? && m.end == PlainTextLine(s, i).end
    ensures m.Matched? && action != RuleAction0 && action != RuleAction1 ==> NoErrorActions(m.toks)
  {
    if i + 1 < |s| && s[i] == symbol && s[i + 1] == ' ' then
      var p := PlainTextLine(s, i + 2);
      if p.NoMatch? then NoMatch
      else
        assert symbol !in LineStops ==> Span(s, i, Except(LineStops)) == p.end by {
          if symbol !in LineStops {
            SpanAt(s, i, p.end, Except(LineStops));
          }
        }
        Matched(p.end, p.toks + [Token32(RulePegText, i + 2, p.end), Token32(action, p.end, p.end)])
    else NoMatch
  }

  /** `<plainTextLine> Action10`: the text of a link. */
  function LinkAlt(s: string, i: nat): (m: Match)
    requires i <= |s|
    ensures m.Matched? <==> PlainTextLine(s, i).Matched?
    ensures m.Matched? ==>
              && m.end == PlainTextLine(s, i).end
              && m.toks == PlainTextLine(s, i).toks
                           + [Token32(RulePegText, i, m.end), Token32(RuleAction10, m.end, m.end)]
    ensures m.Matched? ==> i < m.end <= |s| && Within(m.toks, i, m.end) && NoErrorActions(m.toks)
  {
    var p := PlainTextLine(s, i);
    if p.NoMatch? then NoMatch
    else Matched(p.end, p.toks + [Token32(RulePegText, i, p.end), Token32(RuleAction10, p.end, p.end)])
  }

  /**
   * `innerDecoratedText <- <(('*' ' ' <plainTextLine> Action7) / ('/' ' ' <plainTextLine> Action8)
   *                         / ('-' ' ' <plainTextLine> Action9) / (<plainTextLine> Action10))>`
   */
  function InnerDecoratedText(s: string, i: nat): (m: Match)
    requires i <= |s|
    ensures m.Matched? <==> PlainTextLine(s, i).Matched?
    ensures m.Matched? ==>
              && i < m.end <= |s| && Within(m.toks, i, m.end) && NoErrorActions(m.toks)
              && (forall k :: i <= k < m.end ==> s[k] !in LineStops)
              && (m.end == |s| || s[m.end] in LineStops)
  {
    var p := PlainTextLine(s, i);
    var alt := Or(DecoratedAlt(s, i, '*', RuleAction7),
               Or(DecoratedAlt(s, i, '/', RuleAction8),
               Or(DecoratedAlt(s, i, '-', RuleAction9),
                  LinkAlt(s, i))));
    assert alt.Matched? ==> alt.end == p.end;
    Wrap(alt, RuleInnerDecoratedText, i)
  }

  /** `'[' innerDecoratedText ']'` */
  function BracketDecorated(s: string, i: nat): (m: Match)
    requires i <= |s|
    ensures m.Matched? <==>
              && i < |s| && s[i] == '['
              && InnerDecoratedText(s, i + 1).Matched?
              && InnerDecoratedText(s, i + 1).end < |s| && s[InnerDecoratedText(s, i + 1).end] == ']'
    ensures m.Matched? ==>
              && m.end == InnerDecoratedText(s, i + 1).end + 1
              && m.toks == InnerDecoratedText(s, i + 1).toks
  {
    if i < |s| && s[i] == '[' then
      var d := InnerDecoratedText(s, i + 1);
      if d.Matched? && d.end < |s| && s[d.end] == ']' then Matched(d.end + 1, d.toks) else NoMatch
    else NoMatch
  }

  /** `<('[' plainTextLine)> Action6`: an opening bracket that is not closed on its line. */
  function BracketPlain(s: string, i: nat): (m: Match)
    requires i <= |s|
    ensures m.Matched? <==> i < |s| && s[i] == '[' && PlainTextLine(s, i + 1).Matched?
    ensures m.Matched? ==>
              && m.end == PlainTextLine(s, i + 1).end
              && m.toks == PlainTextLine(s, i + 1).toks
                           + [Token32(RulePegText, i, m.end), Token32(RuleAction6, m.end, m.end)]
    ensures m.Matched? ==> i < m.end <= |s| && Within(m.toks, i, m.end) && NoErrorActions(m.toks)
  {
    if i < |s| && s[i] == '[' then
      var p := PlainTextLine(s, i + 1);
      if p.NoMatch? then NoMatch
      else Matched(p.end, p.toks + [Token32(RulePegText, i, p.end), Token32(RuleAction6, p.end, p.end)])
    else NoMatch
  }

  /** `bracketText <- <(('[' innerDecoratedText ']') / (<('[' plainTextLine)> Action6))>` */
  function BracketText(s: string, i: nat): (m: Match)
    requires i <= |s|
    ensures m.Matched? ==> i < |s| && s[i] == '['
    ensures m.Matched? ==> i < m.end <= |s| && Within(m.toks, i, m.end) && NoErrorActions(m.toks)
  {
    Wrap(Or(BracketDecorated(s, i), BracketPlain(s, i)), RuleBracketText, i)
  }

  /** `<(' '+ plainTextLine)> Action2`: a line indented by spaces. */
  function LiteralBullet(s: string, i: nat): (m: Match)
    requires i <= |s|
    ensures m.Matched? ==> i < |s| && s[i] == ' '
    ensures m.Matched? ==>
              var j := Span(s, i + 1, Only(' '));
              && PlainTextLine(s, j).Matched?
              && m.end == PlainTextLine(s, j).end
              && m.toks == PlainTextLine(s, j).toks
                           + [Token32(RulePegText, i, m.end), Token32(RuleAction2, m.end, m.end)]
    ensures m.Matched? ==> i < m.end <= |s| && Within(m.toks, i, m.end) && NoErrorActions(m.toks)
  {
    if i < |s| && s[i] == ' ' then
      var j := Span(s, i + 1, Only(' '));
      var p := PlainTextLine(s, j);
      if p.NoMatch? then NoMatch
      else Matched(p.end, p.toks + [Token32(RulePegText, i, p.end), Token32(RuleAction2, p.end, p.end)])
    else NoMatch
  }

  /** `<(!(stops) .)+> action`: a non-empty run of runes outside `stops`, as plain text. */
  function LiteralRun(s: string, i: nat, stops: set<char>, action: PegRule): (m: Match)
    requires i <= |s|
    ensures m.Matched? <==> i < |s| && s[i] !in stops
    ensures m.Matched? ==>
              && m.end == Span(s, i, Except(stops))
              && m.toks == [Token32(RulePegText, i, m.end), Token32(action, m.end, m.end)]
    ensures m.Matched? ==> i < m.end <= |s| && Within(m.toks, i, m.end)
    ensures m.Matched? && action != RuleAction0 && action != RuleAction1 ==> NoErrorActions(m.toks)
  {
    var j := Span(s, i, Except(stops));
    if j == i then NoMatch else Matched(j, [Token32(RulePegText, i, j), Token32(action, j, j)])
  }

  /** `'\n' Action5` */
  function LiteralNewLine(s: string, i: nat): (m: Match)
    requires i <= |s|
    ensures m.Matched? <==> i < |s| && s[i] == '\n'
    ensures m.Matched? ==> m == Matched(i + 1, [Token32(RuleAction5, i + 1, i + 1)])
    ensures m.Matched? ==> i < m.end <= |s| && Within(m.toks, i, m.end) && NoErrorActions(m.toks)
  {
    if i < |s| && s[i] == '\n' then Matched(i + 1, [Token32(RuleAction5, i + 1, i + 1)]) else NoMatch
  }

  /** The stops of the third literal alternative: an opening bracket or a line break. */
  const OpenStops: set<char> := {'[', '\n'}
  /** The stops of the fourth literal alternative: a closing bracket or a line break. */
  const CloseStops: set<char> := {']', '\n'}

  /**
   * `literal <- <(bracketText / (<(' '+ plainTextLine)> Action2) / (<(!('[' / '\n') .)+> Action3)
   *              / (<(!(']' / '\n') .)+> Action4) / ('\n' Action5))>`
   *
   * Every rune starts some literal: a line break the fifth alternative, `[`
   * the fourth at the latest, any other rune the third at the latest.
   */
  function Literal(s: string, i: nat): (m: Match)
    requires i <= |s|
    ensures m.Matched? <==> i < |s|
    ensures m.Matched? ==> i < m.end <= |s| && Within(m.toks, i, m.end) && NoErrorActions(m.toks)
  {
    Wrap(Or(BracketText(s, i),
         Or(LiteralBullet(s, i),
         Or(LiteralRun(s, i, OpenStops, RuleAction3),
         Or(LiteralRun(s, i, CloseStops, RuleAction4),
            LiteralNewLine(s, i))))),
         RuleLiteral, i)
  }

  /** `literal*`: always matches, and since every rune starts a literal it stops only at the end. */
  function Literals(s: string, i: nat): (m: Match)
    requires i <= |s|
    ensures m.Matched? && m.end == |s|
    ensures Within(m.toks, i, |s|) && NoErrorActions(m.toks)
    decreases |s| - i
  {
    var l := Literal(s, i);
    if l.NoMatch? then Matched(i, [])
    else
      var rest := Literals(s, l.end);
      WithinAppend(l.toks, rest.toks, i, l.end, l.end, |s|);
      Matched(rest.end, l.toks + rest.toks)
  }

  /** One step of `literal*`: nothing when no literal matches, otherwise the literal's tokens first. */
  lemma LiteralsUnfold(s: string, i: nat)
    requires i <= |s|
    ensures Literal(s, i).NoMatch? ==> Literals(s, i).toks == []
    ensures Literal(s, i).Matched? ==> Literals(s, i).toks == Literal(s, i).toks + Literals(s, Literal(s, i).end).toks
  {
  }

  /** `expression <- <literal+>`: matches exactly when there is a rune left, and then runs to the end. */
  function Expression(s: string, i: nat): (m: Match)
    requires i <= |s|
    ensures m.Matched? <==> i < |s|
    ensures m.Matched? ==> m.end == |s| && Within(m.toks, i, |s|) && NoErrorActions(m.toks)
  {
    var l := Literal(s, i);
    if l.NoMatch? then NoMatch
    else
      var rest := Literals(s, l.end);
      WithinAppend(l.toks, rest.toks, i, l.end, l.end, |s|);
      Matched(rest.end, l.toks + rest.toks + [Token32(RuleExpression, i, rest.end)])
  }

  /** `EOT <- <!.>`: only at the sentinel. */
  function EOT(s: string, i: nat): (m: Match)
    requires i <= |s|
    ensures m.Matched? <==> i == |s|
    ensures m.Matched? ==> m == Matched(i, [Token32(RuleEOT, i, i)])
  {
    if i == |s| then Matched(i, [Token32(RuleEOT, i, i)]) else NoMatch
  }

  /** `<.+>`: the rest of the input, at least one rune. */
  function CaptureRest(s: string, i: nat): (m: Match)
    requires i <= |s|
    ensures m.Matched? <==> i < |s|
    ensures m.Matched? ==> m == Matched(|s|, [Token32(RulePegText, i, |s|)])
  {
    if i < |s| then Matched(|s|, [Token32(RulePegText, i, |s|)]) else NoMatch
  }

  /** `expression EOT` */
  function RootComplete(s: string, i: nat): (m: Match)
    requires i <= |s|
    ensures m.Matched? <==> i < |s|
    ensures m.Matched? ==> m.end == |s| && Within(m.toks, i, |s|) && NoErrorActions(m.toks)
  {
    var e := Expression(s, i);
    if e.NoMatch? then NoMatch
    else
      var t := EOT(s, e.end);
      if t.NoMatch? then NoMatch
      else
        WithinAppend(e.toks, t.toks, i, |s|, |s|, |s|);
        assert NoErrorActions(e.toks + t.toks) by {
          forall k | 0 <= k < |e.toks + t.toks|
            ensures (e.toks + t.toks)[k].rule != RuleAction0 && (e.toks + t.toks)[k].rule != RuleAction1
          {
            if k >= |e.toks| {
              assert (e.toks + t.toks)[k] == t.toks[k - |e.toks|];
            }
          }
        }
        Matched(t.end, e.toks + t.toks)
  }

  /**
   * `expression <.+> Action0 EOT`: never matches, since an expression runs to
   * the end, where `<.+>` fails. The error report `Action0` (with the tokens
   * of the expression, the capture, `Action0` and `EOT`) is dead code.
   */
  function RootTrailing(s: string, i: nat): (m: Match)
    requires i <= |s|
    ensures m.NoMatch?
  {
    var e := Expression(s, i);
    if e.NoMatch? then NoMatch
    else
      var c := CaptureRest(s, e.end);
      // The expression ended at the end, where `<.+>` fails, so the
      // alternative's tail `Action0 EOT` is never reached.
      assert c.NoMatch?;
      NoMatch
  }

  /**
   * `<.+> Action1 EOT`: matches iff a rune is left, capturing the rest and
   * reporting it with the error action `Action1`.
   */
  function RootUnparsed(s: string, i: nat): (m: Match)
    requires i <= |s|
    ensures m.Matched? <==> i < |s|
    ensures m.Matched? ==> m.end == |s| && !NoErrorActions(m.toks)
    ensures m.Matched? ==> m.toks == [Token32(RulePegText, i, |s|), Token32(RuleAction1, |s|, |s|), Token32(RuleEOT, |s|, |s|)]
  {
    var c := CaptureRest(s, i);
    if c.NoMatch? then NoMatch
    else
      var toks := c.toks + [Token32(RuleAction1, |s|, |s|), Token32(RuleEOT, |s|, |s|)];
      assert toks[1].rule == RuleAction1;
      Matched(|s|, toks)
  }

  /** `root <- <((expression EOT) / (expression <.+> Action0 EOT) / (<.+> Action1 EOT))>` */
  function Root(s: string, i: nat): (m: Match)
    requires i <= |s|
    ensures m.Matched? <==> i < |s|
    ensures m.Matched? ==> m == Wrap(RootComplete(s, i), RuleRoot, i)
    ensures m.Matched? ==> m.end == |s| && Within(m.toks, i, |s|) && NoErrorActions(m.toks)
  {
    Wrap(Or(RootComplete(s, i), Or(RootTrailing(s, i), RootUnparsed(s, i))), RuleRoot, i)
  }
}
