/**
 * Link resolution (scrapbox/link.go): bracket detection and trimming, and the
 * classifier that turns the text inside `[...]` into a destination URL and a
 * display title.
 *
 * `url.PathEscape` (percent-encoding of a path segment, section 2.1 of
 * RFC 3986) is library code outside this model; every member that needs it
 * takes it as the parameter `escape`.
 */
module Links {
  import opened Results
  import opened GoStrings

  /** A resolved link. The embedded `SBNode` interface of the Go struct is nil and has no model. */
  datatype SBLink = SBLink(title: string, url: string)

  /** The URL and title `parseTrimmedLinkText` returns; its `error` result is always nil. */
  datatype LinkTarget = LinkTarget(url: string, title: string)

  /** The marker whose presence anywhere in a token makes the token a URL. */
  const Http: string := "http"

  /** `hasBrackets`: the first rune is `[` and the last rune is `]`. */
  predicate HasBrackets(text: string)
  {
    |text| > 0 && text[0] == '[' && text[|text| - 1] == ']'
  }

  /** A text has brackets exactly when it is some text wrapped in `[` and `]`; so a one-rune text never has. */
  lemma HasBracketsIff(text: string)
    ensures HasBrackets(text) <==> exists inner :: text == "[" + inner + "]"
    ensures |text| <= 1 ==> !HasBrackets(text)
  {
    if HasBrackets(text) {
      assert text == "[" + text[1..|text| - 1] + "]";
    }
  }

  /** `trimBrackets`: the runes strictly between the outer brackets. */
  function TrimBrackets(text: string): (r: Result<string>)
    ensures r.Ok? <==> HasBrackets(text)
    ensures r.Ok? ==> "[" + r.value + "]" == text
    ensures r.Err? ==> r.error == InvalidText
  {
    if !HasBrackets(text) then Err(InvalidText)
    else Ok(text[1..|text| - 1])
  }

  /** Trimming undoes wrapping: the interior comes back unchanged. */
  lemma TrimBracketsOfWrapped(inner: string)
    ensures HasBrackets("[" + inner + "]")
    ensures TrimBrackets("[" + inner + "]") == Ok(inner)
  {
    var text := "[" + inner + "]";
    assert text[1..|text| - 1] == inner;
  }

  /** `parseTrimmedLinkText`: classifies the interior of a link. */
  function ParseTrimmedLinkText(server: string, project: string, trimmedText: string,
                                escape: string -> string): (r: LinkTarget)
    ensures (Contains(r.url, Http) && ' ' !in r.url)
            || (r.url == server + "/" + project + "/" + escape(trimmedText) && r.title == trimmedText)
  {
    var urlAndTexts := Split(trimmedText, ' ');
    if Contains(urlAndTexts[0], Http) then
      LinkTarget(urlAndTexts[0], Join(urlAndTexts[1..], ' '))
    else
      var lastIndex := |urlAndTexts| - 1;
      if Contains(urlAndTexts[lastIndex], Http) then
        LinkTarget(urlAndTexts[lastIndex], Join(urlAndTexts[..lastIndex], ' '))
      else
        LinkTarget(server + "/" + project + "/" + escape(trimmedText), trimmedText)
  }

  /**
   * What each branch of the classifier means for the link text: an external
   * URL found in the first or the last space-separated token, with the
   * remaining tokens as the title, so that the link text is the title and the
   * URL joined by one space; otherwise a page of the default project whose
   * title is the whole text.
   */
  lemma {:induction false} ParseTrimmedLinkTextCases(server: string, project: string, trimmedText: string,
                                                     escape: string -> string)
    ensures var r := ParseTrimmedLinkText(server, project, trimmedText, escape);
            var tokens := Split(trimmedText, ' ');
            && (Contains(tokens[0], Http) ==>
                  && r.url == tokens[0] && ' ' !in r.url
                  && (if ' ' in trimmedText then trimmedText == r.url + " " + r.title
                      else trimmedText == r.url && r.title == ""))
            && (!Contains(tokens[0], Http) && Contains(tokens[|tokens| - 1], Http) ==>
                  && r.url == tokens[|tokens| - 1] && ' ' !in r.url
                  && trimmedText == r.title + " " + r.url)
            && (!Contains(tokens[0], Http) && !Contains(tokens[|tokens| - 1], Http) ==>
                  r.url == server + "/" + project + "/" + escape(trimmedText) && r.title == trimmedText)
  {
    var tokens := Split(trimmedText, ' ');
    var r := ParseTrimmedLinkText(server, project, trimmedText, escape);
    if Contains(tokens[0], Http) {
      assert r == LinkTarget(tokens[0], Join(tokens[1..], ' '));
      UrlFirstToken(trimmedText);
    } else if Contains(tokens[|tokens| - 1], Http) {
      assert r == LinkTarget(tokens[|tokens| - 1], Join(tokens[..|tokens| - 1], ' '));
      UrlLastToken(trimmedText);
    }
  }

  /** The text is its first token, then a space and the other tokens (when it has a space). */
  lemma UrlFirstToken(trimmedText: string)
    ensures var tokens := Split(trimmedText, ' ');
            ' ' !in tokens[0]
            && (if ' ' in trimmedText then trimmedText == tokens[0] + " " + Join(tokens[1..], ' ')
                else trimmedText == tokens[0] && Join(tokens[1..], ' ') == "")
  {
    var tokens := Split(trimmedText, ' ');
    JoinSplit(trimmedText, ' ');
    if |tokens| >= 2 {
      JoinCons(tokens, ' ');
    } else {
      assert tokens[1..] == [];
    }
  }

  /** The text is the tokens but the last, then a space and the last token (when it has a space). */
  lemma UrlLastToken(trimmedText: string)
    ensures var tokens := Split(trimmedText, ' ');
            ' ' !in tokens[|tokens| - 1]
            && (' ' in trimmedText ==> trimmedText == Join(tokens[..|tokens| - 1], ' ') + " " + tokens[|tokens| - 1])
            && (' ' !in trimmedText ==> tokens == [trimmedText])
  {
    var tokens := Split(trimmedText, ' ');
    JoinSplit(trimmedText, ' ');
    if |tokens| >= 2 {
      JoinSnoc(tokens, ' ');
    } else {
      SplitNoSeparator(trimmedText, ' ');
    }
  }

  /** `NewSBLink`: a link from bracketed text; fails exactly when the brackets are missing. */
  function NewSBLink(text: string, server: string, project: string, escape: string -> string): (r: Result<SBLink>)
    ensures r.Err? <==> !HasBrackets(text)
    ensures r.Err? ==> r.error == InvalidText
    ensures r.Ok? ==>
              var inner := text[1..|text| - 1];
              && text == "[" + inner + "]"
              && r.value.title == ParseTrimmedLinkText(server, project, inner, escape).title
              && r.value.url == ParseTrimmedLinkText(server, project, inner, escape).url
  {
    match TrimBrackets(text)
    case Err(e) => Err(e)
    case Ok(trimmedText) =>
      var target := ParseTrimmedLinkText(server, project, trimmedText, escape);
      Ok(SBLink(target.title, target.url))
  }

  /** A URL token (no space, containing the marker) first: the rest, spaces and all, is the title. */
  lemma UrlFirst(server: string, project: string, url: string, title: string, escape: string -> string)
    requires ' ' !in url && Contains(url, Http)
    ensures ParseTrimmedLinkText(server, project, url + " " + title, escape) == LinkTarget(url, title)
  {
    SplitAppend(url, ' ', title);
    assert url + " " + title == url + [' '] + title;
    JoinSplit(title, ' ');
  }

  /** A title whose first token has no marker, then a URL token: the URL is found at the end. */
  lemma UrlLast(server: string, project: string, title: string, url: string, escape: string -> string)
    requires ' ' !in url && Contains(url, Http)
    requires !Contains(Split(title, ' ')[0], Http)
    ensures ParseTrimmedLinkText(server, project, title + " " + url, escape) == LinkTarget(url, title)
  {
    SplitConcat(title, ' ', url);
    assert title + " " + url == title + [' '] + url;
    SplitNoSeparator(url, ' ');
    var tokens := Split(title, ' ') + [url];
    assert tokens[..|tokens| - 1] == Split(title, ' ');
    JoinSplit(title, ' ');
  }

  /** Without a marker in the first or the last token, the whole text names a page of the default project. */
  lemma PageTitle(server: string, project: string, text: string, escape: string -> string)
    requires !Contains(Split(text, ' ')[0], Http)
    requires !Contains(Split(text, ' ')[|Split(text, ' ')| - 1], Http)
    ensures ParseTrimmedLinkText(server, project, text, escape)
            == LinkTarget(server + "/" + project + "/" + escape(text), text)
  {
  }
}
