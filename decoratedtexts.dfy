/**
 * The text node types of scrapbox/decorated_text.go: plain text, a line
 * break, and the decorated texts (bold, italic, strike-through) that carry a
 * decoration symbol and render as `[<symbol> <text>]`.
 */
module DecoratedTexts {
  import opened Results
  import Links
  import BoldTexts

  /** `PlainText`: literal text, rendered as it is. */
  datatype PlainText = PlainText(text: string) {
    function String(): string { text }
    function GetText(): string { text }
  }

  /** `NewLineText`: a single line break. */
  datatype NewLineText = NewLineText {
    function String(): string { "\n" }
    function GetText(): string { "\n" }
  }

  /** `NewNewLineText`. */
  function NewNewLineText(): NewLineText
  {
    NewLineText
  }

  /** A plain text and a line break render as their text: `String` and `GetText` agree. */
  lemma UndecoratedRendersAsText(p: PlainText, n: NewLineText)
    ensures p.String() == p.GetText() == p.text
    ensures n.String() == n.GetText() == "\n" && n == NewNewLineText()
  {
  }

  /**
   * The four Go types with the layout `{Symbol rune; Text string}`: the base
   * `decoratedText` and the named types `BoldText`, `ItalicText` and
   * `StrikeThroughText` declared from it. The constructor records which Go
   * type a value has; all four render the same way.
   */
  datatype DecoratedText =
    | Decorated(symbol: char, text: string)
    | BoldText(symbol: char, text: string)
    | ItalicText(symbol: char, text: string)
    | StrikeThroughText(symbol: char, text: string)
  {
    /** `String`: the symbol and a space, then the text, inside brackets. */
    function String(): string
    {
      "[" + [symbol] + " " + text + "]"
    }

    /** `GetText`: the text without markup. */
    function GetText(): string
    {
      text
    }
  }

  const BoldSymbol: char := '*'
  const ItalicSymbol: char := '/'
  const StrikeThroughSymbol: char := '-'

  /** `NewBoldText`: a `*BoldText` with symbol `*`. */
  function NewBoldText(text: string): (r: DecoratedText)
    ensures r.BoldText? && r.symbol == BoldSymbol && r.GetText() == text
  {
    BoldText(BoldSymbol, text)
  }

  /** `NewItalicText`: also a `*BoldText` (the Go function's result type), with symbol `/`. */
  function NewItalicText(text: string): (r: DecoratedText)
    ensures r.BoldText? && r.symbol == ItalicSymbol && r.GetText() == text
  {
    BoldText(ItalicSymbol, text)
  }

  /** `NewStrikeThroughText`: also a `*BoldText`, with symbol `-`. */
  function NewStrikeThroughText(text: string): (r: DecoratedText)
    ensures r.BoldText? && r.symbol == StrikeThroughSymbol && r.GetText() == text
  {
    BoldText(StrikeThroughSymbol, text)
  }

  /** Rendering is the plain text wrapped in the decoration's markup. */
  lemma StringWrapsText(d: DecoratedText)
    ensures d.String() == "[" + [d.symbol] + " " + d.GetText() + "]"
    ensures Links.HasBrackets(d.String())
  {
  }

  /** Trimming the brackets of a decorated rendering leaves the symbol, the space and the text. */
  lemma WrappedDecorationTrims(symbol: char, inner: string)
    ensures Links.TrimBrackets("[" + [symbol] + " " + inner + "]") == Ok([symbol] + " " + inner)
  {
    assert "[" + [symbol] + " " + inner + "]" == "[" + ([symbol] + " " + inner) + "]";
    Links.TrimBracketsOfWrapped([symbol] + " " + inner);
  }

  /**
   * `trimDecoratedRawText`, which decorated_text.go calls but does not
   * define: bold_text.go's `trimBoldRawText` with `*` generalised to the
   * given symbol, and with the length guard that the bold test lacks.
   */
  function TrimDecoratedRawText(rawText: string, symbol: char): (r: Result<string>)
    ensures r.Ok? <==> exists inner :: rawText == "[" + [symbol] + " " + inner + "]"
    ensures r.Ok? ==> rawText == "[" + [symbol] + " " + r.value + "]"
    ensures r.Err? ==> r.error == InvalidDecoration(symbol)
  {
    match Links.TrimBrackets(rawText)
    case Err(_) =>
      assert forall inner :: ("[" + [symbol] + " " + inner + "]")[0] == '[';
      Err(InvalidDecoration(symbol))
    case Ok(trimmedRawText) =>
      if |trimmedRawText| >= 2 && trimmedRawText[0] == symbol && trimmedRawText[1] == ' ' then
        assert rawText == "[" + [symbol] + " " + trimmedRawText[2..] + "]";
        Ok(trimmedRawText[2..])
      else
        assert forall inner :: rawText != "[" + [symbol] + " " + inner + "]" by {
          forall inner
            ensures rawText != "[" + [symbol] + " " + inner + "]"
          {
            WrappedDecorationTrims(symbol, inner);
          }
        }
        Err(InvalidDecoration(symbol))
  }

  /** For `*` the generalised trimmer agrees with bold_text.go's trimmer (up to the error value). */
  lemma TrimDecoratedAgreesWithBold(rawText: string)
    ensures TrimDecoratedRawText(rawText, BoldSymbol).Ok? == BoldTexts.TrimBoldRawText(rawText).Ok?
    ensures TrimDecoratedRawText(rawText, BoldSymbol).Ok? ==>
              TrimDecoratedRawText(rawText, BoldSymbol).value == BoldTexts.TrimBoldRawText(rawText).value
  {
    BoldTexts.IsValidBoldRawTextIff(rawText);
    assert "[* " == "[" + [BoldSymbol] + " ";
    if BoldTexts.TrimBoldRawText(rawText).Ok? {
      var inner := BoldTexts.TrimBoldRawText(rawText).value;
      assert rawText == "[" + [BoldSymbol] + " " + inner + "]";
    }
  }

  /** `newDecoratedText`: fails (with the decoration's name in the message) exactly when trimming fails. */
  function NewDecoratedText(rawText: string, symbol: char, decorateName: string): (r: Result<DecoratedText>)
    ensures r.Ok? <==> TrimDecoratedRawText(rawText, symbol).Ok?
    ensures r.Ok? ==> r.value == Decorated(symbol, TrimDecoratedRawText(rawText, symbol).value)
    ensures r.Err? ==> r.error == Wrapped("invalid text for " + decorateName + " text", InvalidDecoration(symbol))
  {
    match TrimDecoratedRawText(rawText, symbol)
    case Err(e) => Err(Wrapped("invalid text for " + decorateName + " text", e))
    case Ok(trimmedBoldRawText) => Ok(Decorated(symbol, trimmedBoldRawText))
  }

  /** Round trip of a decorated text, both ways: parsing its rendering rebuilds it, and a parsed text renders to its source. */
  lemma NewDecoratedTextRoundTrip(rawText: string, symbol: char, decorateName: string, text: string)
    ensures NewDecoratedText(Decorated(symbol, text).String(), symbol, decorateName) == Ok(Decorated(symbol, text))
    ensures NewDecoratedText(rawText, symbol, decorateName).Ok? ==>
              NewDecoratedText(rawText, symbol, decorateName).value.String() == rawText
  {
    var s := Decorated(symbol, text).String();
    assert s == "[" + [symbol] + " " + text + "]";
    var r := TrimDecoratedRawText(s, symbol);
    assert r.Ok?;
    assert "[" + [symbol] + " " + r.value + "]" == "[" + [symbol] + " " + text + "]";
    assert r.value == s[3..|s| - 1] == text;
  }

  /** `NewBoldTextFromBracketsText`: a `*BoldText` with symbol `*` from `[* ...]`. */
  function NewBoldTextFromBracketsText(rawText: string): (r: Result<DecoratedText>)
    ensures r.Ok? <==> exists inner :: rawText == "[* " + inner + "]"
    ensures r.Ok? ==> r.value.BoldText? && r.value.symbol == BoldSymbol && r.value.String() == rawText
    ensures r.Err? ==> r.error == Wrapped("invalid text for bold text", InvalidDecoration(BoldSymbol))
  {
    assert "[* " == "[" + [BoldSymbol] + " ";
    match NewDecoratedText(rawText, BoldSymbol, "bold")
    case Err(e) => Err(e)
    case Ok(d) => Ok(BoldText(d.symbol, d.text))
  }

  /** `NewItalicTextFromBracketsText`: an `*ItalicText` with symbol `/` from `[/ ...]`. */
  function NewItalicTextFromBracketsText(rawText: string): (r: Result<DecoratedText>)
    ensures r.Ok? <==> exists inner :: rawText == "[/ " + inner + "]"
    ensures r.Ok? ==> r.value.ItalicText? && r.value.symbol == ItalicSymbol && r.value.String() == rawText
    ensures r.Err? ==> r.error == Wrapped("invalid text for italic text", InvalidDecoration(ItalicSymbol))
  {
    assert "[/ " == "[" + [ItalicSymbol] + " ";
    match NewDecoratedText(rawText, ItalicSymbol, "italic")
    case Err(e) => Err(e)
    case Ok(d) => Ok(ItalicText(d.symbol, d.text))
  }

  /** `NewStrikeThroughTextFromBracketsText`: a `*StrikeThroughText` with symbol `-` from `[- ...]`. */
  function NewStrikeThroughTextFromBracketsText(rawText: string): (r: Result<DecoratedText>)
    ensures r.Ok? <==> exists inner :: rawText == "[- " + inner + "]"
    ensures r.Ok? ==> r.value.StrikeThroughText? && r.value.symbol == StrikeThroughSymbol && r.value.String() == rawText
    ensures r.Err? ==> r.error == Wrapped("invalid text for strike through text", InvalidDecoration(StrikeThroughSymbol))
  {
    assert "[- " == "[" + [StrikeThroughSymbol] + " ";
    match NewDecoratedText(rawText, StrikeThroughSymbol, "strike through")
    case Err(e) => Err(e)
    case Ok(d) => Ok(StrikeThroughText(d.symbol, d.text))
  }

  /**
   * The cases of the `NewBoldTextFromBracketsText` test table: a missing
   * bracket on either side, a missing `*`, a missing space, and two accepted
   * texts, one with an inner space, each rendering back to its raw text.
   */
  lemma NewBoldTextFromBracketsTextExamples()
    ensures NewBoldTextFromBracketsText("* foobar]").Err?
    ensures NewBoldTextFromBracketsText("[ foobar]").Err?
    ensures NewBoldTextFromBracketsText("[* foobar").Err?
    ensures NewBoldTextFromBracketsText("[*foobar]").Err?
    ensures var r := NewBoldTextFromBracketsText("[* foobar]");
            r.Ok? && r.value.GetText() == "foobar" && r.value.String() == "[* foobar]"
    ensures var r := NewBoldTextFromBracketsText("[* foo bar]");
            r.Ok? && r.value.GetText() == "foo bar" && r.value.String() == "[* foo bar]"
  {
    assert "[* foobar]" == "[* " + "foobar" + "]";
    assert "[* foo bar]" == "[* " + "foo bar" + "]";
    assert "[*foobar]"[2] == 'f';
  }
}
