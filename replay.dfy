/**
 * What `Parser.Execute` (scrapbox/scan.peg.go) does with a token list, as
 * pure functions: a `PegText` token sets the current capture, each of
 * `Action2`..`Action10` emits one segment built from the current capture,
 * and `Action0`/`Action1` (which only print) and the rule tokens emit
 * nothing. On top of that: the tiling theorem (the rendered segments of a
 * successful parse are the input, rune for rune) and the totality of `root`.
 */
module Replay {
  import opened Grammar

  /** One segment, before it becomes a text node: its kind and its capture. */
  datatype Emission =
    | Bullet(text: string)          // Action2
    | Plain(text: string)           // Action3, Action4, Action6
    | NewLine                       // Action5
    | Bold(text: string)            // Action7
    | Italic(text: string)          // Action8
    | StrikeThrough(text: string)   // Action9
    | Link(text: string)            // Action10

  /** The segment an action emits with the current capture, if any. */
  function Emit(rule: PegRule, text: string): seq<Emission>
  {
    match rule
    case RuleAction2 => [Bullet(text)]
    case RuleAction3 => [Plain(text)]
    case RuleAction4 => [Plain(text)]
    case RuleAction5 => [NewLine]
    case RuleAction6 => [Plain(text)]
    case RuleAction7 => [Bold(text)]
    case RuleAction8 => [Italic(text)]
    case RuleAction9 => [StrikeThrough(text)]
    case RuleAction10 => [Link(text)]
    case _ => []
  }

  /** The rules whose action pushes a text node. */
  predicate Emitting(rule: PegRule)
  {
    rule in {RuleAction2, RuleAction3, RuleAction4, RuleAction5, RuleAction6,
             RuleAction7, RuleAction8, RuleAction9, RuleAction10}
  }

  lemma EmitOne(rule: PegRule, text: string)
    ensures |Emit(rule, text)| == if Emitting(rule) then 1 else 0
  {
  }

  /**
   * The capture after a token: a `PegText` token replaces it with its runes.
   * Tokens of a parse always lie inside the input; one that does not would
   * make the Go slice expression panic, and here leaves the capture alone.
   */
  function NextText(tok: Token32, s: string, text: string): string
  {
    if tok.rule == RulePegText && tok.begin <= tok.end <= |s| then s[tok.begin..tok.end] else text
  }

  /** The segments a token list emits, starting with capture `text`. */
  function Emitted(toks: seq<Token32>, s: string, text: string): seq<Emission>
    decreases |toks|
  {
    if |toks| == 0 then []
    else Emit(toks[0].rule, text) + Emitted(toks[1..], s, NextText(toks[0], s, text))
  }

  /** The capture after a token list. */
  function LastText(toks: seq<Token32>, s: string, text: string): string
    decreases |toks|
  {
    if |toks| == 0 then text
    else LastText(toks[1..], s, NextText(toks[0], s, text))
  }

  /** The number of emitting action tokens. */
  function CountEmitting(toks: seq<Token32>): nat
    decreases |toks|
  {
    if |toks| == 0 then 0
    else (if Emitting(toks[0].rule) then 1 else 0) + CountEmitting(toks[1..])
  }

  /** Each emitting action pushes exactly one segment and every other token none. */
  lemma {:induction false} EmittedCount(toks: seq<Token32>, s: string, text: string)
    ensures |Emitted(toks, s, text)| == CountEmitting(toks)
    decreases |toks|
  {
    if |toks| > 0 {
      EmitOne(toks[0].rule, text);
      EmittedCount(toks[1..], s, NextText(toks[0], s, text));
    }
  }

  /** Replaying a concatenation replays the first part, then the second from the capture the first leaves. */
  lemma {:induction false} EmittedAppend(a: seq<Token32>, b: seq<Token32>, s: string, text: string)
    ensures Emitted(a + b, s, text) == Emitted(a, s, text) + Emitted(b, s, LastText(a, s, text))
    ensures LastText(a + b, s, text) == LastText(b, s, LastText(a, s, text))
    decreases |a|
  {
    if |a| == 0 {
      assert a + b == b;
    } else {
      assert (a + b)[1..] == a[1..] + b;
      EmittedAppend(a[1..], b, s, NextText(a[0], s, text));
    }
  }

  /** Replaying one more token: its segment after the others, with the capture the others leave. */
  lemma EmittedSnoc(toks: seq<Token32>, tok: Token32, s: string, text: string)
    ensures Emitted(toks + [tok], s, text) == Emitted(toks, s, text) + Emit(tok.rule, LastText(toks, s, text))
    ensures LastText(toks + [tok], s, text) == NextText(tok, s, LastText(toks, s, text))
  {
    EmittedAppend(toks, [tok], s, text);
    assert [tok][1..] == [];
  }

  /**
   * The markup a segment stands for: plain and bullet text as captured, a
   * line break, a decoration's symbol and a space before the capture inside
   * brackets, and a link's capture inside brackets.
   */
  function Rendered(e: Emission): string
  {
    match e
    case Bullet(t) => t
    case Plain(t) => t
    case NewLine => "\n"
    case Bold(t) => "[* " + t + "]"
    case Italic(t) => "[/ " + t + "]"
    case StrikeThrough(t) => "[- " + t + "]"
    case Link(t) => "[" + t + "]"
  }

  /** The segments' markup, concatenated in order. */
  function Render(es: seq<Emission>): string
    decreases |es|
  {
    if |es| == 0 then "" else Rendered(es[0]) + Render(es[1..])
  }

  lemma {:induction false} RenderAppend(x: seq<Emission>, y: seq<Emission>)
    ensures Render(x + y) == Render(x) + Render(y)
    decreases |x|
  {
    if |x| == 0 {
      assert x + y == y;
    } else {
      assert (x + y)[1..] == x[1..] + y;
      RenderAppend(x[1..], y);
    }
  }

  /** Tokens other than `PegText` and the emitting actions leave emission and capture alone. */
  lemma Silent(tok: Token32, s: string, text: string)
    requires tok.rule != RulePegText && !Emitting(tok.rule)
    ensures Emitted([tok], s, text) == []
    ensures LastText([tok], s, text) == text
  {
  }

  /** A `PegText` token followed by an action: the action's segment with that token's runes. */
  lemma CaptureThenAction(begin: nat, end: nat, action: PegRule, s: string, text: string)
    requires begin <= end <= |s|
    ensures Emitted([Token32(RulePegText, begin, end), Token32(action, end, end)], s, text)
            == Emit(action, s[begin..end])
  {
    var toks := [Token32(RulePegText, begin, end), Token32(action, end, end)];
    assert toks[1..] == [Token32(action, end, end)];
    assert toks[1..][1..] == [];
    assert Emitted(toks[1..][1..], s, s[begin..end]) == [];
    assert Emitted(toks[1..], s, s[begin..end]) == Emit(action, s[begin..end]);
  }

  /** Replaying a text line's tokens, its capture, then an action: just that action's segment. */
  lemma LineThenAction(p: Match, begin: nat, action: PegRule, s: string, text: string)
    requires p.Matched? && begin <= p.end <= |s| && |p.toks| == 1
    requires p.toks[0] == Token32(RulePlainTextLine, p.toks[0].begin, p.end) && p.toks[0].begin <= p.end
    ensures Emitted(p.toks + [Token32(RulePegText, begin, p.end), Token32(action, p.end, p.end)], s, text)
            == Emit(action, s[begin..p.end])
  {
    var tail := [Token32(RulePegText, begin, p.end), Token32(action, p.end, p.end)];
    EmittedAppend(p.toks, tail, s, text);
    Silent(p.toks[0], s, text);
    assert p.toks == [p.toks[0]];
    CaptureThenAction(begin, p.end, action, s, LastText(p.toks, s, text));
  }

  /** A rule's own token adds nothing to the replay. */
  lemma WrapSilent(m: Match, rule: PegRule, i: nat, s: string, text: string)
    requires m.Matched?
    requires rule != RulePegText && !Emitting(rule)
    ensures Wrap(m, rule, i).Matched?
    ensures Emitted(Wrap(m, rule, i).toks, s, text) == Emitted(m.toks, s, text)
  {
    var tok := Token32(rule, i, m.end);
    EmittedAppend(m.toks, [tok], s, text);
    Silent(tok, s, LastText(m.toks, s, text));
  }

  /** A rendered single segment. */
  lemma RenderOne(e: Emission)
    ensures Render([e]) == Rendered(e)
  {
    assert [e][1..] == [];
  }

  /** An alternative made of a text line, its capture and an action, under its rule's token: that action's segment. */
  lemma AlternativeEmits(alt: Match, p: Match, begin: nat, action: PegRule, rule: PegRule, i: nat,
                         s: string, text: string)
    requires p.Matched? && i <= begin <= p.end <= |s| && |p.toks| == 1
    requires p.toks[0] == Token32(RulePlainTextLine, p.toks[0].begin, p.end) && p.toks[0].begin <= p.end
    requires alt == Matched(p.end, p.toks + [Token32(RulePegText, begin, p.end), Token32(action, p.end, p.end)])
    requires rule != RulePegText && !Emitting(rule)
    ensures Wrap(alt, rule, i).Matched?
    ensures Emitted(Wrap(alt, rule, i).toks, s, text) == Emit(action, s[begin..p.end])
  {
    LineThenAction(p, begin, action, s, text);
    WrapSilent(alt, rule, i, s, text);
  }

  lemma DecorationRenders(action: PegRule, symbol: char, t: string)
    requires action in {RuleAction7, RuleAction8, RuleAction9}
    requires symbol == (if action == RuleAction7 then '*' else if action == RuleAction8 then '/' else '-')
    ensures Render(Emit(action, t)) == "[" + [symbol] + " " + t + "]"
  {
    RenderOne(Emit(action, t)[0]);
  }

  /** A decoration `symbol ' ' text` ending at `end`: its segment renders, with brackets, as the bracketed runes. */
  lemma DecoratedTiles(s: string, i: nat, end: nat, symbol: char, action: PegRule, text: string, a: Match)
    requires i + 2 <= end <= |s| && s[i] == symbol && s[i + 1] == ' '
    requires a == Matched(end, [Token32(RulePlainTextLine, i + 2, end)]
                               + [Token32(RulePegText, i + 2, end), Token32(action, end, end)])
    requires action in {RuleAction7, RuleAction8, RuleAction9}
    requires symbol == (if action == RuleAction7 then '*' else if action == RuleAction8 then '/' else '-')
    ensures var m := Wrap(a, RuleInnerDecoratedText, i);
            && Render(Emitted(m.toks, s, text)) == "[" + s[i..end] + "]"
  {
    AlternativeEmits(a, Matched(end, [Token32(RulePlainTextLine, i + 2, end)]), i + 2, action,
                     RuleInnerDecoratedText, i, s, text);
    DecorationRenders(action, symbol, s[i + 2..end]);
    DecorationBrackets(s, i, end, symbol);
  }

  /** Runes that start with a symbol and a space, in brackets: the decoration's markup of the rest. */
  lemma DecorationBrackets(s: string, i: nat, end: nat, symbol: char)
    requires i + 2 <= end <= |s| && s[i] == symbol && s[i + 1] == ' '
    ensures "[" + s[i..end] + "]" == "[" + [symbol] + " " + s[i + 2..end] + "]"
  {
    assert s[i..end] == [symbol, ' '] + s[i + 2..end];
  }

  /** A decorated or link interior renders, with its brackets, as the bracketed runes it covers. */
  lemma InnerTiles(s: string, i: nat, text: string)
    requires i <= |s| && InnerDecoratedText(s, i).Matched?
    ensures Render(Emitted(InnerDecoratedText(s, i).toks, s, text)) == "[" + s[i..InnerDecoratedText(s, i).end] + "]"
  {
    var a1, a2, a3, a4 := DecoratedAlt(s, i, '*', RuleAction7), DecoratedAlt(s, i, '/', RuleAction8),
                          DecoratedAlt(s, i, '-', RuleAction9), LinkAlt(s, i);
    if a1.Matched? {
      DecoratedTiles(s, i, a1.end, '*', RuleAction7, text, a1);
    } else if a2.Matched? {
      DecoratedTiles(s, i, a2.end, '/', RuleAction8, text, a2);
    } else if a3.Matched? {
      DecoratedTiles(s, i, a3.end, '-', RuleAction9, text, a3);
    } else {
      var p := PlainTextLine(s, i);
      AlternativeEmits(a4, p, i, RuleAction10, RuleInnerDecoratedText, i, s, text);
      RenderOne(Link(s[i..p.end]));
    }
  }

  /** A bracket text renders as the runes it covers. */
  lemma BracketTiles(s: string, i: nat, text: string)
    requires i <= |s| && BracketText(s, i).Matched?
    ensures Render(Emitted(BracketText(s, i).toks, s, text)) == s[i..BracketText(s, i).end]
  {
    if BracketDecorated(s, i).Matched? {
      BracketDecoratedTiles(s, i, text);
    } else {
      BracketPlainTiles(s, i, text);
    }
  }

  /** The runes from `i` on: those before `j`, then those from `j` on. */
  lemma SliceSplit(s: string, i: nat, j: nat)
    requires i <= j <= |s|
    ensures s[i..] == s[i..j] + s[j..]
  {
  }

  /** Runes from an opening bracket at `i` to a closing one at `j`: the runes between, in brackets. */
  lemma BracketsAround(s: string, i: nat, j: nat)
    requires i < j < |s| && s[i] == '[' && s[j] == ']'
    ensures s[i..j + 1] == "[" + s[i + 1..j] + "]"
  {
    assert s[i..j + 1] == [s[i]] + s[i + 1..j] + [s[j]];
  }

  lemma {:induction false} BracketDecoratedTiles(s: string, i: nat, text: string)
    requires i <= |s| && BracketDecorated(s, i).Matched?
    ensures var m := Wrap(BracketDecorated(s, i), RuleBracketText, i);
            && Render(Emitted(m.toks, s, text)) == s[i..m.end]
  {
    var d, inner := BracketDecorated(s, i), InnerDecoratedText(s, i + 1);
    assert inner.Matched? && i < inner.end < |s| && s[i] == '[' && s[inner.end] == ']';
    assert d == Matched(inner.end + 1, inner.toks);
    InnerTiles(s, i + 1, text);
    BracketedTiles(s, i, d, inner, text);
  }

  /** An interior between brackets that renders as the bracketed runes, under the bracket text's token. */
  lemma BracketedTiles(s: string, i: nat, d: Match, inner: Match, text: string)
    requires inner.Matched? && i < inner.end < |s| && s[i] == '[' && s[inner.end] == ']'
    requires d == Matched(inner.end + 1, inner.toks)
    requires Render(Emitted(inner.toks, s, text)) == "[" + s[i + 1..inner.end] + "]"
    ensures Render(Emitted(Wrap(d, RuleBracketText, i).toks, s, text)) == s[i..d.end]
  {
    WrapSilent(d, RuleBracketText, i, s, text);
    BracketsAround(s, i, inner.end);
  }

  lemma BracketPlainTiles(s: string, i: nat, text: string)
    requires i <= |s| && BracketPlain(s, i).Matched?
    ensures var m := Wrap(BracketPlain(s, i), RuleBracketText, i);
            && Render(Emitted(m.toks, s, text)) == s[i..m.end]
  {
    var p := PlainTextLine(s, i + 1);
    AlternativeEmits(BracketPlain(s, i), p, i, RuleAction6, RuleBracketText, i, s, text);
    RenderOne(Plain(s[i..p.end]));
  }

  /** A literal renders as the runes it covers. */
  lemma LiteralTiles(s: string, i: nat, text: string)
    requires i < |s|
    ensures Render(Emitted(Literal(s, i).toks, s, text)) == s[i..Literal(s, i).end]
  {
    var b, u, r3, r4, n := BracketText(s, i), LiteralBullet(s, i), LiteralRun(s, i, OpenStops, RuleAction3),
                           LiteralRun(s, i, CloseStops, RuleAction4), LiteralNewLine(s, i);
    if b.Matched? {
      BracketTiles(s, i, text);
      WrapSilent(b, RuleLiteral, i, s, text);
    } else if u.Matched? {
      BulletTiles(s, i, text);
    } else if r3.Matched? {
      RunTiles(s, i, OpenStops, RuleAction3, text);
    } else if r4.Matched? {
      RunTiles(s, i, CloseStops, RuleAction4, text);
    } else {
      NewLineTiles(s, i, text);
    }
  }

  lemma BulletTiles(s: string, i: nat, text: string)
    requires i <= |s| && LiteralBullet(s, i).Matched?
    ensures var m := Wrap(LiteralBullet(s, i), RuleLiteral, i);
            Render(Emitted(m.toks, s, text)) == s[i..m.end]
  {
    var p := PlainTextLine(s, Span(s, i + 1, Only(' ')));
    AlternativeEmits(LiteralBullet(s, i), p, i, RuleAction2, RuleLiteral, i, s, text);
    RenderOne(Bullet(s[i..p.end]));
  }

  lemma RunTiles(s: string, i: nat, stops: set<char>, action: PegRule, text: string)
    requires i <= |s| && LiteralRun(s, i, stops, action).Matched?
    requires action == RuleAction3 || action == RuleAction4
    ensures var m := Wrap(LiteralRun(s, i, stops, action), RuleLiteral, i);
            && Render(Emitted(m.toks, s, text)) == s[i..m.end]
  {
    var r := LiteralRun(s, i, stops, action);
    CaptureThenAction(i, r.end, action, s, text);
    WrapSilent(r, RuleLiteral, i, s, text);
    RenderOne(Plain(s[i..r.end]));
  }

  lemma NewLineTiles(s: string, i: nat, text: string)
    requires i <= |s| && LiteralNewLine(s, i).Matched?
    ensures var m := Wrap(LiteralNewLine(s, i), RuleLiteral, i);
            && Render(Emitted(m.toks, s, text)) == s[i..m.end]
  {
    var n := LiteralNewLine(s, i);
    WrapSilent(n, RuleLiteral, i, s, text);
    var tok := Token32(RuleAction5, i + 1, i + 1);
    assert n.toks == [tok];
    assert Emitted([tok], s, text) == [NewLine] + Emitted([tok][1..], s, text);
    assert [tok][1..] == [];
    RenderOne(NewLine);
    assert s[i..i + 1] == [s[i]];
  }

  /** Replaying `literal*` from `i`: the first literal's segments, then those of the rest. */
  lemma LiteralsStep(s: string, i: nat, text: string)
    requires i < |s|
    ensures Render(Emitted(Literals(s, i).toks, s, text))
            == Render(Emitted(Literal(s, i).toks, s, text))
               + Render(Emitted(Literals(s, Literal(s, i).end).toks, s, LastText(Literal(s, i).toks, s, text)))
  {
    var l := Literal(s, i);
    var rest := Literals(s, l.end);
    assert Literals(s, i).toks == l.toks + rest.toks;
    EmittedAppend(l.toks, rest.toks, s, text);
    RenderAppend(Emitted(l.toks, s, text), Emitted(rest.toks, s, LastText(l.toks, s, text)));
  }

  /** Zero or more literals render as the runes from `i` to the end. */
  lemma {:induction false} LiteralsTile(s: string, i: nat, text: string)
    requires i <= |s|
    ensures Render(Emitted(Literals(s, i).toks, s, text)) == s[i..]
    decreases |s| - i
  {
    if i < |s| {
      var l := Literal(s, i);
      var t1 := LastText(l.toks, s, text);
      LiteralsStep(s, i, text);
      LiteralTiles(s, i, text);
      LiteralsTile(s, l.end, t1);
      SliceSplit(s, i, l.end);
    } else {
      assert Literals(s, i).toks == [];
    }
  }

  /** An expression renders as the runes from `i` to the end. */
  lemma ExpressionTiles(s: string, i: nat, text: string)
    requires i < |s|
    ensures Render(Emitted(Expression(s, i).toks, s, text)) == s[i..]
  {
    var body := Literals(s, i);
    assert Expression(s, i) == Wrap(body, RuleExpression, i);
    LiteralsTile(s, i, text);
    WrapSilent(body, RuleExpression, i, s, text);
  }

  /** The segments a successful parse of `s` emits, in push order. */
  function Emissions(s: string): seq<Emission>
    requires |s| > 0
  {
    Emitted(Root(s, 0).toks, s, "")
  }

  /**
   * Tiling: every non-empty input is accepted, by root's first alternative,
   * and its segments, rendered and concatenated in push order, are exactly the
   * input. The error actions `Action0` and `Action1` never appear.
   */
  lemma RootTiles(s: string)
    requires |s| > 0
    ensures Root(s, 0).Matched? && Root(s, 0).end == |s|
    ensures Root(s, 0) == Wrap(RootComplete(s, 0), RuleRoot, 0)
    ensures NoErrorActions(Root(s, 0).toks)
    ensures Render(Emissions(s)) == s
  {
    var e := Expression(s, 0);
    assert RootComplete(s, 0) == Wrap(e, RuleEOT, |s|);
    ExpressionTiles(s, 0, "");
    assert s[0..] == s;
    RootOfExpression(s, e);
  }

  /** An expression covering the input, under the end-of-text and root tokens, renders as the input. */
  lemma RootOfExpression(s: string, e: Match)
    requires e.Matched? && Render(Emitted(e.toks, s, "")) == s
    ensures Render(Emitted(Wrap(Wrap(e, RuleEOT, |s|), RuleRoot, 0).toks, s, "")) == s
  {
    WrapTwiceSilent(e, RuleEOT, |s|, RuleRoot, 0, s, "");
  }

  /** Two rule tokens added in turn add nothing to the replay. */
  lemma WrapTwiceSilent(m: Match, r1: PegRule, i1: nat, r2: PegRule, i2: nat, s: string, text: string)
    requires m.Matched? && r1 != RulePegText && !Emitting(r1) && r2 != RulePegText && !Emitting(r2)
    ensures Emitted(Wrap(Wrap(m, r1, i1), r2, i2).toks, s, text) == Emitted(m.toks, s, text)
  {
    WrapSilent(m, r1, i1, s, text);
    WrapSilent(Wrap(m, r1, i1), r2, i2, s, text);
  }

  /** Empty input fails all three root alternatives: each needs at least one rune. */
  lemma EmptyInputFails(s: string)
    requires |s| == 0
    ensures RootComplete(s, 0).NoMatch? && RootTrailing(s, 0).NoMatch? && RootUnparsed(s, 0).NoMatch?
    ensures Root(s, 0).NoMatch?
  {
  }
}
