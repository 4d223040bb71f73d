/**
 * The bold-text snapshot in scrapbox/bold_text.go: a bold node that holds
 * only its text, the validity test for `[* ...]` and the trimmer. (The same
 * package also holds decorated_text.go, whose `BoldText` and `NewBoldText`
 * have other shapes; that file is the module DecoratedTexts.)
 */
module BoldTexts {
  import opened Results
  import opened GoStrings
  import Links

  /** The bold node of this snapshot: only the text between `[* ` and `]`. */
  datatype BoldText = BoldText(text: string) {
    /** `String`: the bold markup around the text. */
    function String(): string
    {
      "[* " + text + "]"
    }
  }

  /** The outcome of evaluating an expression that may index out of range. */
  datatype Evaluation<+T> = Returns(value: T) | Panics

  /**
   * `isValidBoldRawText` exactly as written: after `len > 0` and rune 0 being
   * `*`, it reads rune 1 without checking that there is one.
   */
  function IsValidBoldRawTextAsWritten(rawText: string): Evaluation<bool>
  {
    match Links.TrimBrackets(rawText)
    case Err(_) => Returns(false)
    case Ok(trimmedRawText) =>
      if |trimmedRawText| == 0 || trimmedRawText[0] != '*' then Returns(false)
      else if |trimmedRawText| < 2 then Panics
      else Returns(trimmedRawText[1] == ' ')
  }

  /** The as-written test panics on exactly one input: `[*]`. */
  lemma AsWrittenPanicsExactlyOnBareStar(rawText: string)
    ensures IsValidBoldRawTextAsWritten(rawText) == Panics <==> rawText == "[*]"
  {
    if rawText == "[*]" {
      assert rawText[1..|rawText| - 1] == "*";
    }
    if IsValidBoldRawTextAsWritten(rawText) == Panics {
      var t := Links.TrimBrackets(rawText).value;
      assert t == "*";
    }
  }

  /**
   * `isValidBoldRawText` as intended: the text is bracketed and its interior
   * starts with `*` followed by a space (the interior has at least two runes).
   */
  predicate IsValidBoldRawText(rawText: string)
  {
    && Links.TrimBrackets(rawText).Ok?
    && var trimmedRawText := Links.TrimBrackets(rawText).value;
    && |trimmedRawText| >= 2 && trimmedRawText[0] == '*' && trimmedRawText[1] == ' '
  }

  /** Wherever the as-written test does not panic, it returns what the intended test returns. */
  lemma AsWrittenAgreesWithIntended(rawText: string)
    ensures IsValidBoldRawTextAsWritten(rawText) != Panics ==>
              IsValidBoldRawTextAsWritten(rawText) == Returns(IsValidBoldRawText(rawText))
  {
  }

  /** Valid bold raw text is exactly some text wrapped as `[* ` ... `]`. */
  lemma IsValidBoldRawTextIff(rawText: string)
    ensures IsValidBoldRawText(rawText) <==> exists inner :: rawText == "[* " + inner + "]"
  {
    if IsValidBoldRawText(rawText) {
      assert rawText == "[* " + rawText[3..|rawText| - 1] + "]";
    } else if exists inner :: rawText == "[* " + inner + "]" {
      var inner :| rawText == "[* " + inner + "]";
      Links.TrimBracketsOfWrapped("* " + inner);
    }
  }

  /**
   * `trimBoldRawText`: fails unless the text is valid; otherwise removes the
   * first `*` and then the first space from the interior, which drops its
   * first two runes and keeps every later space.
   */
  function TrimBoldRawText(rawText: string): (r: Result<string>)
    ensures r.Ok? <==> IsValidBoldRawText(rawText)
    ensures r.Err? ==> r.error == InvalidBoldText
    ensures r.Ok? ==> r.value == Links.TrimBrackets(rawText).value[2..]
    ensures r.Ok? ==> rawText == "[* " + r.value + "]"
  {
    if !IsValidBoldRawText(rawText) then Err(InvalidBoldText)
    else
      var trimmedRawText := Links.TrimBrackets(rawText).value;
      assert trimmedRawText[1..][0] == ' ';
      Ok(RemoveFirst(RemoveFirst(trimmedRawText, '*'), ' '))
  }

  /** `NewBoldText`: a bold node for valid raw text, an error otherwise. */
  function NewBoldText(rawText: string): (r: Result<BoldText>)
    ensures r.Ok? <==> IsValidBoldRawText(rawText)
    ensures r.Err? ==> r.error == InvalidBoldText
    ensures r.Ok? ==> r.value.text == TrimBoldRawText(rawText).value
  {
    match TrimBoldRawText(rawText)
    case Err(_) => Err(InvalidBoldText)
    case Ok(trimmedBoldRawText) => Ok(BoldText(trimmedBoldRawText))
  }

  /** Round trip, both ways: a node built from raw text renders back to that text, and every node is rebuilt from its rendering. */
  lemma NewBoldTextRoundTrip(rawText: string, b: BoldText)
    ensures NewBoldText(rawText).Ok? ==> NewBoldText(rawText).value.String() == rawText
    ensures NewBoldText(b.String()) == Ok(b)
  {
    var s := b.String();
    assert IsValidBoldRawText(s) by {
      IsValidBoldRawTextIff(s);
    }
  }

  /** The table cases: a missing bracket on either side, a missing space, a missing `*`, and inner spaces kept. */
  lemma NewBoldTextExamples()
    ensures NewBoldText("* foobar]").Err?
    ensures NewBoldText("[* foobar").Err?
    ensures NewBoldText("[*foobar]").Err?
    ensures NewBoldText("[ foobar]").Err?
    ensures NewBoldText("[* foo bar]") == Ok(BoldText("foo bar"))
  {
    assert "[*foobar]"[1..8][1] == 'f';
    assert BoldText("foo bar").String() == "[* foo bar]";
    NewBoldTextRoundTrip("[* foo bar]", BoldText("foo bar"));
  }
}
