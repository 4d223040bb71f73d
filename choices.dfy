/**
 * PEG ordered choice on single-literal pages, as in scrapbox/parser_test.go:
 * which alternative of `literal` and `innerDecoratedText` takes the whole
 * page, and the one segment it emits.
 */
module Choices {
  import opened Grammar
  import opened Replay
  import GoStrings
  import Links
  import Scan
  import Peg
  import Parsing

  /** No rune of `t` is in `stops`; on a literal string this evaluates rune by rune. */
  predicate Clear(t: string, stops: set<char>)
    decreases |t|
  {
    |t| == 0 || (t[0] !in stops && Clear(t[1..], stops))
  }

  lemma {:induction false} ClearAppend(a: string, b: string, stops: set<char>)
    requires Clear(a, stops) && Clear(b, stops)
    ensures Clear(a + b, stops)
    decreases |a|
  {
    if |a| > 0 {
      assert (a + b)[1..] == a[1..] + b;
      ClearAppend(a[1..], b, stops);
    } else {
      assert a + b == b;
    }
  }

  lemma {:induction false} ClearAll(t: string, stops: set<char>)
    requires Clear(t, stops)
    ensures forall k :: 0 <= k < |t| ==> t[k] !in stops
    decreases |t|
  {
    if |t| > 0 {
      ClearAll(t[1..], stops);
      assert forall k :: 1 <= k < |t| ==> t[k] == t[1..][k - 1];
    }
  }

  // From the root to a page's only literal.

  lemma {:induction false} CompleteShape(s: string)
    requires |s| > 0
    ensures RootComplete(s, 0) == Wrap(Expression(s, 0), RuleEOT, |s|)
  {
  }

  lemma {:induction false} RootShape(s: string)
    requires |s| > 0
    ensures Root(s, 0) == Wrap(Wrap(Expression(s, 0), RuleEOT, |s|), RuleRoot, 0)
  {
    RootTiles(s);
    CompleteShape(s);
  }

  /** A page emits what its expression emits. */
  lemma {:induction false} EmissionsOfExpression(s: string)
    requires |s| > 0
    ensures Emissions(s) == Emitted(Expression(s, 0).toks, s, "")
  {
    RootShape(s);
    RootSilent(Root(s, 0), Expression(s, 0), s);
  }

  lemma {:induction false} RootSilent(root: Match, e: Match, s: string)
    requires e.Matched? && root == Wrap(Wrap(e, RuleEOT, |s|), RuleRoot, 0)
    ensures Emitted(root.toks, s, "") == Emitted(e.toks, s, "")
  {
    WrapTwiceSilent(e, RuleEOT, |s|, RuleRoot, 0, s, "");
  }

  lemma {:induction false} ExpressionShape(s: string)
    requires |s| > 0
    ensures Expression(s, 0) == Wrap(Literals(s, 0), RuleExpression, 0)
  {
  }

  /** A first literal that runs to the end leaves `literal*` nothing more. */
  lemma {:induction false} LiteralsOfOne(s: string)
    requires |s| > 0 && Literal(s, 0).end == |s|
    ensures Literals(s, 0).toks == Literal(s, 0).toks
  {
    LiteralsUnfold(s, 0);
    LiteralsUnfold(s, |s|);
    assert Literal(s, 0).toks + [] == Literal(s, 0).toks;
  }

  lemma {:induction false} ExpressionOfOne(s: string)
    requires |s| > 0 && Literal(s, 0).end == |s|
    ensures Emitted(Expression(s, 0).toks, s, "") == Emitted(Literal(s, 0).toks, s, "")
  {
    ExpressionShape(s);
    LiteralsOfOne(s);
    WrapSilent(Literals(s, 0), RuleExpression, 0, s, "");
  }

  /** A page that is one literal emits that literal's segments. */
  lemma {:induction false} SingleLiteral(s: string)
    requires |s| > 0 && Literal(s, 0).end == |s|
    ensures Emissions(s) == Emitted(Literal(s, 0).toks, s, "")
  {
    EmissionsOfExpression(s);
    ExpressionOfOne(s);
  }

  // A page that is one bracket text.

  lemma {:induction false} BracketTextShape(s: string, alt: Match)
    requires |s| > 0 && alt == Or(BracketDecorated(s, 0), BracketPlain(s, 0))
    ensures BracketText(s, 0) == Wrap(alt, RuleBracketText, 0)
  {
  }

  lemma {:induction false} BracketLiteralShape(s: string)
    requires |s| > 0 && BracketText(s, 0).Matched?
    ensures Literal(s, 0) == Wrap(BracketText(s, 0), RuleLiteral, 0)
  {
  }

  /** A bracket alternative that matches makes `bracketText` match, emitting what it emits. */
  lemma {:induction false} BracketTextOfAlt(s: string, alt: Match)
    requires |s| > 0 && alt == Or(BracketDecorated(s, 0), BracketPlain(s, 0)) && alt.Matched?
    ensures BracketText(s, 0).Matched? && BracketText(s, 0).end == alt.end
    ensures Emitted(BracketText(s, 0).toks, s, "") == Emitted(alt.toks, s, "")
  {
    BracketTextShape(s, alt);
    WrapSilent(alt, RuleBracketText, 0, s, "");
  }

  /** `bracketText` comes first in `literal`: when it matches, the literal emits what it emits. */
  lemma {:induction false} LiteralOfBracketText(s: string)
    requires |s| > 0 && BracketText(s, 0).Matched?
    ensures Literal(s, 0).end == BracketText(s, 0).end
    ensures Emitted(Literal(s, 0).toks, s, "") == Emitted(BracketText(s, 0).toks, s, "")
  {
    BracketLiteralShape(s);
    WrapSilent(BracketText(s, 0), RuleLiteral, 0, s, "");
  }

  lemma {:induction false} LiteralOfBracket(s: string, alt: Match)
    requires |s| > 0 && alt == Or(BracketDecorated(s, 0), BracketPlain(s, 0)) && alt.Matched?
    ensures Literal(s, 0).end == alt.end
    ensures Emitted(Literal(s, 0).toks, s, "") == Emitted(alt.toks, s, "")
  {
    BracketTextOfAlt(s, alt);
    LiteralOfBracketText(s);
  }

  /** A page taken whole by a bracket alternative emits that alternative's segments. */
  lemma {:induction false} BracketPage(s: string, alt: Match)
    requires |s| > 0 && alt == Or(BracketDecorated(s, 0), BracketPlain(s, 0))
    requires alt.Matched? && alt.end == |s|
    ensures Emissions(s) == Emitted(alt.toks, s, "")
  {
    LiteralOfBracket(s, alt);
    SingleLiteral(s);
  }

  /** An interior closed by the last rune: `'[' innerDecoratedText ']'` takes the page. */
  lemma {:induction false} ClosedBracket(s: string)
    requires |s| > 1 && s[0] == '[' && s[|s| - 1] == ']'
    requires InnerDecoratedText(s, 1).Matched? && InnerDecoratedText(s, 1).end == |s| - 1
    ensures BracketDecorated(s, 0) == Matched(|s|, InnerDecoratedText(s, 1).toks)
  {
  }

  /**
   * An `innerDecoratedText` alternative made of one plain text line up to the
   * closing bracket and its action emits that action's segment of the line.
   */
  lemma {:induction false} WrappedLine(d: Match, alt: Match, p: Match, begin: nat, action: PegRule, s: string, t: string)
    requires 1 <= begin <= |s| - 1 && s[begin..|s| - 1] == t
    requires p == Matched(|s| - 1, [Token32(RulePlainTextLine, begin, |s| - 1)])
    requires alt == Matched(p.end, p.toks + [Token32(RulePegText, begin, p.end), Token32(action, p.end, p.end)])
    requires d == Wrap(alt, RuleInnerDecoratedText, 1)
    ensures d.Matched? && d.end == |s| - 1
    ensures Emitted(d.toks, s, "") == Emit(action, t)
  {
    assert s[begin..p.end] == t;
    AlternativeEmits(alt, p, begin, action, RuleInnerDecoratedText, 1, s, "");
  }

  // `[* t]`, `[/ t]` and `[- t]`: the three decoration alternatives, tried in that order.

  lemma {:induction false} DecorationLine(open: string, t: string, s: string)
    requires |open| == 3 && open[0] == '[' && open[2] == ' '
    requires |t| > 0 && Clear(t, LineStops) && s == open + t + "]"
    ensures s[0] == '[' && s[1] == open[1] && s[2] == ' ' && s[|s| - 1] == ']' && s[3..|s| - 1] == t
    ensures PlainTextLine(s, 3) == Matched(|s| - 1, [Token32(RulePlainTextLine, 3, |s| - 1)])
  {
    ClearAll(t, LineStops);
    assert s[3..|s| - 1] == t;
    SpanAt(s, 3, |s| - 1, Except(LineStops));
  }

  lemma {:induction false} InnerIsBold(s: string)
    requires 1 <= |s| && DecoratedAlt(s, 1, '*', RuleAction7).Matched?
    ensures InnerDecoratedText(s, 1) == Wrap(DecoratedAlt(s, 1, '*', RuleAction7), RuleInnerDecoratedText, 1)
  {
  }

  lemma {:induction false} InnerIsItalic(s: string)
    requires 1 <= |s| && DecoratedAlt(s, 1, '*', RuleAction7).NoMatch?
    requires DecoratedAlt(s, 1, '/', RuleAction8).Matched?
    ensures InnerDecoratedText(s, 1) == Wrap(DecoratedAlt(s, 1, '/', RuleAction8), RuleInnerDecoratedText, 1)
  {
  }

  lemma {:induction false} InnerIsStrikeThrough(s: string)
    requires 1 <= |s| && DecoratedAlt(s, 1, '*', RuleAction7).NoMatch?
    requires DecoratedAlt(s, 1, '/', RuleAction8).NoMatch? && DecoratedAlt(s, 1, '-', RuleAction9).Matched?
    ensures InnerDecoratedText(s, 1) == Wrap(DecoratedAlt(s, 1, '-', RuleAction9), RuleInnerDecoratedText, 1)
  {
  }

  lemma {:induction false} BoldInner(t: string, s: string)
    requires |t| > 0 && Clear(t, LineStops) && s == "[* " + t + "]"
    ensures InnerDecoratedText(s, 1).Matched? && InnerDecoratedText(s, 1).end == |s| - 1
    ensures Emitted(InnerDecoratedText(s, 1).toks, s, "") == [Bold(t)]
  {
    assert Emit(RuleAction7, t) == [Bold(t)];
    DecorationLine("[* ", t, s);
    InnerIsBold(s);
    WrappedLine(InnerDecoratedText(s, 1), DecoratedAlt(s, 1, '*', RuleAction7), PlainTextLine(s, 3), 3, RuleAction7, s, t);
  }

  lemma {:induction false} ItalicInner(t: string, s: string)
    requires |t| > 0 && Clear(t, LineStops) && s == "[/ " + t + "]"
    ensures InnerDecoratedText(s, 1).Matched? && InnerDecoratedText(s, 1).end == |s| - 1
    ensures Emitted(InnerDecoratedText(s, 1).toks, s, "") == [Italic(t)]
  {
    assert Emit(RuleAction8, t) == [Italic(t)];
    DecorationLine("[/ ", t, s);
    InnerIsItalic(s);
    WrappedLine(InnerDecoratedText(s, 1), DecoratedAlt(s, 1, '/', RuleAction8), PlainTextLine(s, 3), 3, RuleAction8, s, t);
  }

  lemma {:induction false} StrikeThroughInner(t: string, s: string)
    requires |t| > 0 && Clear(t, LineStops) && s == "[- " + t + "]"
    ensures InnerDecoratedText(s, 1).Matched? && InnerDecoratedText(s, 1).end == |s| - 1
    ensures Emitted(InnerDecoratedText(s, 1).toks, s, "") == [StrikeThrough(t)]
  {
    assert Emit(RuleAction9, t) == [StrikeThrough(t)];
    DecorationLine("[- ", t, s);
    InnerIsStrikeThrough(s);
    WrappedLine(InnerDecoratedText(s, 1), DecoratedAlt(s, 1, '-', RuleAction9), PlainTextLine(s, 3), 3, RuleAction9, s, t);
  }

  /** `[* t]`, for a non-empty `t` on one line without brackets, is one bold segment of `t`. */
  lemma {:induction false} BoldPage(t: string)
    requires |t| > 0 && Clear(t, LineStops)
    ensures Emissions("[* " + t + "]") == [Bold(t)]
  {
    var s := "[* " + t + "]";
    BoldInner(t, s);
    ClosedBracket(s);
    BracketPage(s, BracketDecorated(s, 0));
  }

  /** `[/ t]`, for a non-empty `t` on one line without brackets, is one italic segment of `t`. */
  lemma {:induction false} ItalicPage(t: string)
    requires |t| > 0 && Clear(t, LineStops)
    ensures Emissions("[/ " + t + "]") == [Italic(t)]
  {
    var s := "[/ " + t + "]";
    ItalicInner(t, s);
    ClosedBracket(s);
    BracketPage(s, BracketDecorated(s, 0));
  }

  /** `[- t]`, for a non-empty `t` on one line without brackets, is one strike-through segment of `t`. */
  lemma {:induction false} StrikeThroughPage(t: string)
    requires |t| > 0 && Clear(t, LineStops)
    ensures Emissions("[- " + t + "]") == [StrikeThrough(t)]
  {
    var s := "[- " + t + "]";
    StrikeThroughInner(t, s);
    ClosedBracket(s);
    BracketPage(s, BracketDecorated(s, 0));
  }

  // `[t]` without a decoration prefix: the link alternative.

  lemma {:induction false} BracketedLine(t: string, s: string)
    requires |t| > 0 && Clear(t, LineStops) && s == "[" + t + "]"
    ensures s[0] == '[' && s[|s| - 1] == ']' && s[1..|s| - 1] == t
    ensures PlainTextLine(s, 1) == Matched(|s| - 1, [Token32(RulePlainTextLine, 1, |s| - 1)])
  {
    ClearAll(t, LineStops);
    assert s[1..|s| - 1] == t;
    SpanAt(s, 1, |s| - 1, Except(LineStops));
  }

  /** Without a symbol and a space at its head, no decoration alternative matches. */
  lemma {:induction false} Undecorated(t: string, s: string)
    requires |t| > 0 && s == "[" + t + "]"
    requires !(|t| >= 2 && t[0] in "*/-" && t[1] == ' ')
    ensures DecoratedAlt(s, 1, '*', RuleAction7).NoMatch?
    ensures DecoratedAlt(s, 1, '/', RuleAction8).NoMatch?
    ensures DecoratedAlt(s, 1, '-', RuleAction9).NoMatch?
  {
    assert s[1] == t[0];
    assert |t| >= 2 ==> s[2] == t[1];
    assert |t| == 1 ==> s[2] == ']';
  }

  lemma {:induction false} InnerIsLink(s: string)
    requires 1 <= |s|
    requires DecoratedAlt(s, 1, '*', RuleAction7).NoMatch?
    requires DecoratedAlt(s, 1, '/', RuleAction8).NoMatch?
    requires DecoratedAlt(s, 1, '-', RuleAction9).NoMatch?
    ensures InnerDecoratedText(s, 1) == Wrap(LinkAlt(s, 1), RuleInnerDecoratedText, 1)
  {
  }

  lemma {:induction false} LinkInner(t: string, s: string)
    requires |t| > 0 && Clear(t, LineStops) && s == "[" + t + "]"
    requires !(|t| >= 2 && t[0] in "*/-" && t[1] == ' ')
    ensures InnerDecoratedText(s, 1).Matched? && InnerDecoratedText(s, 1).end == |s| - 1
    ensures Emitted(InnerDecoratedText(s, 1).toks, s, "") == [Link(t)]
  {
    assert Emit(RuleAction10, t) == [Link(t)];
    BracketedLine(t, s);
    Undecorated(t, s);
    InnerIsLink(s);
    WrappedLine(InnerDecoratedText(s, 1), LinkAlt(s, 1), PlainTextLine(s, 1), 1, RuleAction10, s, t);
  }

  /**
   * `[t]`, for a non-empty `t` on one line without brackets that does not
   * start with a decoration symbol and a space, is one link segment of `t`.
   */
  lemma {:induction false} LinkPage(t: string)
    requires |t| > 0 && Clear(t, LineStops)
    requires !(|t| >= 2 && t[0] in "*/-" && t[1] == ' ')
    ensures Emissions("[" + t + "]") == [Link(t)]
  {
    var s := "[" + t + "]";
    LinkInner(t, s);
    ClosedBracket(s);
    BracketPage(s, BracketDecorated(s, 0));
  }

  // `[t` with no closing bracket: the bracketed plain alternative.

  lemma {:induction false} OpenLine(t: string, s: string)
    requires |t| > 0 && Clear(t, LineStops) && s == "[" + t
    ensures s[0] == '[' && forall k :: 1 <= k < |s| ==> s[k] !in LineStops
    ensures PlainTextLine(s, 1) == Matched(|s|, [Token32(RulePlainTextLine, 1, |s|)])
  {
    ClearAll(t, LineStops);
    assert forall k :: 1 <= k < |s| ==> s[k] == t[k - 1];
    SpanAt(s, 1, |s|, Except(LineStops));
  }

  /** The interior runs to the end, so no `]` closes it. */
  lemma {:induction false} Unclosed(s: string)
    requires |s| > 0 && forall k :: 1 <= k < |s| ==> s[k] !in LineStops
    ensures BracketDecorated(s, 0).NoMatch?
  {
  }

  lemma {:induction false} UnclosedBracket(t: string, s: string)
    requires |t| > 0 && Clear(t, LineStops) && s == "[" + t
    ensures BracketDecorated(s, 0).NoMatch?
    ensures BracketPlain(s, 0).Matched? && BracketPlain(s, 0).end == |s|
    ensures Emitted(BracketPlain(s, 0).toks, s, "") == [Plain(s)]
  {
    assert Emit(RuleAction6, s) == [Plain(s)];
    OpenLine(t, s);
    Unclosed(s);
    var p := PlainTextLine(s, 1);
    LineThenAction(p, 0, RuleAction6, s, "");
    assert s[0..|s|] == s;
  }

  /** `[t`, for a non-empty `t` on one line without brackets, is one plain segment, `[` included. */
  lemma {:induction false} UnclosedPage(t: string)
    requires |t| > 0 && Clear(t, LineStops)
    ensures Emissions("[" + t) == [Plain("[" + t)]
  {
    var s := "[" + t;
    UnclosedBracket(t, s);
    BracketPage(s, BracketPlain(s, 0));
  }

  // A page without `[`: the first plain-run alternative.

  lemma {:induction false} OpenRun(s: string)
    requires |s| > 0 && Clear(s, OpenStops)
    ensures s[0] != '['
    ensures LiteralRun(s, 0, OpenStops, RuleAction3)
            == Matched(|s|, [Token32(RulePegText, 0, |s|), Token32(RuleAction3, |s|, |s|)])
  {
    ClearAll(s, OpenStops);
    SpanAt(s, 0, |s|, Except(OpenStops));
  }

  lemma {:induction false} RunLiteralShape(s: string)
    requires |s| > 0 && s[0] != '[' && s[0] != ' ' && LiteralRun(s, 0, OpenStops, RuleAction3).Matched?
    ensures Literal(s, 0) == Wrap(LiteralRun(s, 0, OpenStops, RuleAction3), RuleLiteral, 0)
  {
  }

  lemma {:induction false} UnopenedLiteral(s: string)
    requires |s| > 0 && s[0] != ' ' && Clear(s, OpenStops)
    ensures Literal(s, 0).end == |s|
    ensures Emitted(Literal(s, 0).toks, s, "") == [Plain(s)]
  {
    assert Emit(RuleAction3, s) == [Plain(s)];
    OpenRun(s);
    RunLiteralShape(s);
    WrapSilent(LiteralRun(s, 0, OpenStops, RuleAction3), RuleLiteral, 0, s, "");
    CaptureThenAction(0, |s|, RuleAction3, s, "");
    assert s[0..|s|] == s;
  }

  /**
   * A non-empty page without `[` or a line break that does not start with a
   * space is one plain segment, `]` included.
   */
  lemma {:induction false} UnopenedPage(s: string)
    requires |s| > 0 && s[0] != ' ' && Clear(s, OpenStops)
    ensures Emissions(s) == [Plain(s)]
  {
    UnopenedLiteral(s);
    SingleLiteral(s);
  }

  // The pages of parser_test.go.
  //
  // The `...Clear` and `...Split` lemmas below are proof steps for these fixed
  // pages, not statements about the scanner. `...Clear` evaluates `Clear` on
  // one literal text, rune by rune, so that the general page lemmas above
  // (`BoldPage`, `LinkPage`, ...) apply to it. `...Split` states how a literal
  // page is made of its parts (`"[* Bold]" == "[* " + "Bold" + "]"`). Each is
  // a lemma of its own, about a few runes and a few parts at a time, because
  // unfolding a long literal text inside the page lemma costs the verifier
  // far more than these small steps.

  lemma {:induction false} BoldClear()
    ensures Clear("Bold", LineStops)
  {
    assert Clear("d", LineStops);
    assert Clear("ld", LineStops);
    assert Clear("old", LineStops);
    assert Clear("Bold", LineStops);
  }

  lemma {:induction false} ItalicClear()
    ensures Clear("Italic", LineStops)
  {
    assert Clear("c", LineStops);
    assert Clear("ic", LineStops);
    assert Clear("lic", LineStops);
    assert Clear("alic", LineStops);
    assert Clear("talic", LineStops);
    assert Clear("Italic", LineStops);
  }

  lemma {:induction false} StrikeClear()
    ensures Clear("Strike Through", LineStops)
  {
    assert "Strike Through" == "Strike" + " Through";
    StrikeHalfClear();
    ThroughHalfClear();
    ClearAppend("Strike", " Through", LineStops);
  }

  lemma {:induction false} StrikeHalfClear()
    ensures Clear("Strike", LineStops)
  {
    assert Clear("e", LineStops);
    assert Clear("ke", LineStops);
    assert Clear("ike", LineStops);
    assert Clear("rike", LineStops);
    assert Clear("trike", LineStops);
    assert Clear("Strike", LineStops);
  }

  lemma {:induction false} ThroughHalfClear()
    ensures Clear(" Through", LineStops)
  {
    assert Clear("h", LineStops);
    assert Clear("gh", LineStops);
    assert Clear("ugh", LineStops);
    assert Clear("ough", LineStops);
    assert Clear("rough", LineStops);
    assert Clear("hrough", LineStops);
    assert Clear("Through", LineStops);
    assert Clear(" Through", LineStops);
  }

  lemma {:induction false} LinkClear()
    ensures Clear("link", LineStops)
  {
    assert Clear("k", LineStops);
    assert Clear("nk", LineStops);
    assert Clear("ink", LineStops);
    assert Clear("link", LineStops);
  }

  lemma {:induction false} NotBoldClear()
    ensures Clear("*NotBold", LineStops)
  {
    assert Clear("d", LineStops);
    assert Clear("ld", LineStops);
    assert Clear("old", LineStops);
    assert Clear("Bold", LineStops);
    assert Clear("tBold", LineStops);
    assert Clear("otBold", LineStops);
    assert Clear("NotBold", LineStops);
    assert Clear("*NotBold", LineStops);
  }

  lemma {:induction false} NotLinkClear()
    ensures Clear("not link", LineStops)
  {
    assert Clear("k", LineStops);
    assert Clear("nk", LineStops);
    assert Clear("ink", LineStops);
    assert Clear("link", LineStops);
    assert Clear(" link", LineStops);
    assert Clear("t link", LineStops);
    assert Clear("ot link", LineStops);
    assert Clear("not link", LineStops);
  }

  lemma {:induction false} NotLinkCloseClear()
    ensures Clear("not link]", OpenStops)
  {
    assert Clear("]", OpenStops);
    assert Clear("k]", OpenStops);
    assert Clear("nk]", OpenStops);
    assert Clear("ink]", OpenStops);
    assert Clear("link]", OpenStops);
    assert Clear(" link]", OpenStops);
    assert Clear("t link]", OpenStops);
    assert Clear("ot link]", OpenStops);
    assert Clear("not link]", OpenStops);
  }

  lemma {:induction false} FoobarClear()
    ensures Clear("foobar", OpenStops)
  {
    assert Clear("r", OpenStops);
    assert Clear("ar", OpenStops);
    assert Clear("bar", OpenStops);
    assert Clear("obar", OpenStops);
    assert Clear("oobar", OpenStops);
    assert Clear("foobar", OpenStops);
  }

  /** A bold page. */
  lemma {:induction false} BoldTestPage()
    ensures Emissions("[* Bold]") == [Bold("Bold")]
  {
    BoldClear();
    BoldPage("Bold");
    BoldSplit();
  }

  lemma {:induction false} BoldSplit()
    ensures "[* Bold]" == "[* " + "Bold" + "]"
  {
    assert "[* Bold]" == "[* " + "Bold" + "]";
  }

  /** An italic page. */
  lemma {:induction false} ItalicTestPage()
    ensures Emissions("[/ Italic]") == [Italic("Italic")]
  {
    ItalicClear();
    ItalicPage("Italic");
    ItalicSplit();
  }

  lemma {:induction false} ItalicSplit()
    ensures "[/ Italic]" == "[/ " + "Italic" + "]"
  {
    assert "[/ Italic]" == "[/ " + "Italic" + "]";
  }

  /** A strike-through page; the text keeps its space. */
  lemma {:induction false} StrikeThroughTestPage()
    ensures Emissions("[- Strike Through]") == [StrikeThrough("Strike Through")]
  {
    StrikeClear();
    StrikeThroughPage("Strike Through");
    StrikeThroughSplit();
  }

  lemma {:induction false} StrikeThroughSplit()
    ensures "[- Strike Through]" == "[- " + "Strike Through" + "]"
  {
    assert "[- Strike Through]" == "[- " + "Strike Through" + "]";
  }

  /** A link page. */
  lemma {:induction false} LinkTestPage()
    ensures Emissions("[link]") == [Link("link")]
  {
    LinkClear();
    LinkPage("link");
    LinkSplit();
  }

  lemma {:induction false} LinkSplit()
    ensures "[link]" == "[" + "link" + "]"
  {
    assert "[link]" == "[" + "link" + "]";
  }

  /** Without the space after `*` the bold alternative fails and the link alternative takes the page. */
  lemma {:induction false} NotBoldTestPage()
    ensures Emissions("[*NotBold]") == [Link("*NotBold")]
  {
    NotBoldClear();
    LinkPage("*NotBold");
    NotBoldSplit();
  }

  lemma {:induction false} NotBoldSplit()
    ensures "[*NotBold]" == "[" + "*NotBold" + "]"
  {
    assert "[*NotBold]" == "[" + "*NotBold" + "]";
  }

  /** An opening bracket never closed is plain text, bracket included. */
  lemma {:induction false} UnclosedTestPage()
    ensures Emissions("[not link") == [Plain("[not link")]
  {
    NotLinkClear();
    UnclosedPage("not link");
    UnclosedSplit();
  }

  lemma {:induction false} UnclosedSplit()
    ensures "[not link" == "[" + "not link"
  {
    assert "[not link" == "[" + "not link";
  }

  /** A closing bracket never opened is plain text. */
  lemma {:induction false} UnopenedTestPage()
    ensures Emissions("not link]") == [Plain("not link]")]
  {
    NotLinkCloseClear();
    UnopenedPage("not link]");
  }

  /** A page without markup is plain text. */
  lemma {:induction false} PlainTestPage()
    ensures Emissions("foobar") == [Plain("foobar")]
  {
    FoobarClear();
    UnopenedPage("foobar");
  }


  // Links whose first token is a URL, as in parser_test.go, and what `Parse` makes of the two link pages.

  /**
   * A page `[url title]` whose url holds the marker and no space: one link
   * segment, which `Parse` turns into a link to `url` titled `title`.
   */
  lemma {:induction false} UrlLinkParsed(url: string, title: string, escape: string -> string)
    requires ' ' !in url && GoStrings.Contains(url, Links.Http)
    requires Clear(url, LineStops) && Clear(title, LineStops)
    ensures var t := url + " " + title;
            && Emissions("[" + t + "]") == [Link(t)]
            && Peg.TextsOf(Emissions("[" + t + "]"), Parsing.Server, Parsing.Project, escape)
               == [Scan.LinkNode(Links.SBLink(title, url))]
  {
    var t := url + " " + title;
    assert Clear(" ", LineStops);
    ClearAppend(url, " ", LineStops);
    ClearAppend(url + " ", title, LineStops);
    LinkPage(t);
    Links.UrlFirst(Parsing.Server, Parsing.Project, url, title, escape);
  }

  /** The URL link of parser_test.go. */
  lemma {:induction false} SampleLinkParsed(escape: string -> string)
    ensures Emissions("[https://sample.com sample link]") == [Link("https://sample.com sample link")]
    ensures Peg.TextsOf(Emissions("[https://sample.com sample link]"), Parsing.Server, Parsing.Project, escape)
            == [Scan.LinkNode(Links.SBLink("sample link", "https://sample.com"))]
  {
    SampleUrl();
    SampleUrlClear();
    SampleTitleClear();
    UrlLinkParsed("https://sample.com", "sample link", escape);
    SampleLinkSplit();
  }

  // Proof steps for the URL link page, in the same style as the pages above:
  // how its literal text is made of its parts, and `Clear` of each part.

  lemma {:induction false} SampleLinkSplit()
    ensures "https://sample.com" + " " + "sample link" == "https://sample.com sample link"
    ensures "[https://sample.com sample link]" == "[" + ("https://sample.com" + " " + "sample link") + "]"
  {
    assert "https://sample.com" + " " + "sample link" == "https://sample.com sample link";
    assert "[https://sample.com sample link]" == "[" + "https://sample.com sample link" + "]";
  }

  /** The URL token holds the marker and no space. */
  lemma {:induction false} SampleUrl()
    ensures ' ' !in "https://sample.com" && GoStrings.Contains("https://sample.com", Links.Http)
  {
    assert "https://sample.com"[..4] == Links.Http;
    assert forall k :: 0 <= k < |"https://sample.com"| ==> "https://sample.com"[k] != ' ';
  }

  lemma {:induction false} SampleUrlClear()
    ensures Clear("https://sample.com", LineStops)
  {
    SchemeClear();
    HostClear();
    ClearAppend("https://", "sample.com", LineStops);
    UrlSplit();
  }

  lemma {:induction false} UrlSplit()
    ensures "https://" + "sample.com" == "https://sample.com"
  {
  }

  lemma {:induction false} SampleTitleClear()
    ensures Clear("sample link", LineStops)
  {
    SampleWordClear();
    LinkWordClear();
    ClearAppend("sample", " link", LineStops);
    TitleSplit();
  }

  lemma {:induction false} TitleSplit()
    ensures "sample" + " link" == "sample link"
  {
  }

  lemma {:induction false} SchemeClear()
    ensures Clear("https://", LineStops)
  {
    assert Clear("/", LineStops);
    assert Clear("//", LineStops);
    assert Clear("://", LineStops);
    assert Clear("s://", LineStops);
    assert Clear("ps://", LineStops);
    assert Clear("tps://", LineStops);
    assert Clear("ttps://", LineStops);
    assert Clear("https://", LineStops);
  }

  lemma {:induction false} HostClear()
    ensures Clear("sample.com", LineStops)
  {
    SampleWordClear();
    assert Clear("m", LineStops);
    assert Clear("om", LineStops);
    assert Clear("com", LineStops);
    assert Clear(".com", LineStops);
    ClearAppend("sample", ".com", LineStops);
    HostSplit();
  }

  lemma {:induction false} HostSplit()
    ensures "sample" + ".com" == "sample.com"
  {
  }

  lemma {:induction false} SampleWordClear()
    ensures Clear("sample", LineStops)
  {
    assert Clear("e", LineStops);
    assert Clear("le", LineStops);
    assert Clear("ple", LineStops);
    assert Clear("mple", LineStops);
    assert Clear("ample", LineStops);
    assert Clear("sample", LineStops);
  }

  lemma {:induction false} LinkWordClear()
    ensures Clear(" link", LineStops)
  {
    assert Clear("k", LineStops);
    assert Clear("nk", LineStops);
    assert Clear("ink", LineStops);
    assert Clear("link", LineStops);
    assert Clear(" link", LineStops);
  }

  /** The page link's one token has no marker. */
  lemma {:induction false} LinkTokens()
    ensures GoStrings.Split("link", ' ') == ["link"] && !GoStrings.Contains("link", Links.Http)
  {
    assert forall k :: 0 <= k < |"link"| ==> "link"[k] != ' ';
    GoStrings.SplitNoSeparator("link", ' ');
    assert "link"[..4] != Links.Http;
    assert !GoStrings.Contains("ink", Links.Http);
  }

  /** `Parse` on `[link]`: one link node to the page `link` of the fixed project. */
  lemma {:induction false} LinkParsed(escape: string -> string)
    ensures Peg.TextsOf(Emissions("[link]"), Parsing.Server, Parsing.Project, escape)
            == [Scan.LinkNode(Links.SBLink("link", Parsing.Server + "/" + Parsing.Project + "/" + escape("link")))]
  {
    LinkTestPage();
    LinkTokens();
    Links.PageTitle(Parsing.Server, Parsing.Project, "link", escape);
  }
}
