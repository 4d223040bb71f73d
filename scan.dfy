/**
 * The scan context of scrapbox/parser.go: the server and project that links
 * resolve against, and the list of text nodes the parser's actions push.
 */
module Scan {
  import opened Results
  import Links
  import DecoratedTexts

  /**
   * A pushed text node. The Go interface `Text` is not part of this model;
   * its values are the node types the actions push. `NewBulletPointText` is
   * not part of this model either, so a bullet-point node records only the
   * capture it is built from.
   */
  datatype Text =
    | PlainNode(plain: DecoratedTexts.PlainText)
    | NewLineNode(newLine: DecoratedTexts.NewLineText)
    | DecoratedNode(decorated: DecoratedTexts.DecoratedText)
    | BulletPointNode(rawText: string)
    | LinkNode(link: Links.SBLink)

  /**
   * The link `PushLinkFromRawText` pushes for a raw link text: the classifier
   * applied to it. `WrappedLinkResolves` proves it is the link `NewSBLink`
   * builds from `[rawText]`.
   */
  function ResolvedLink(server: string, project: string, rawText: string, escape: string -> string): Links.SBLink
  {
    var t := Links.ParseTrimmedLinkText(server, project, rawText, escape);
    Links.SBLink(t.title, t.url)
  }

  /**
   * Wrapping a raw text in brackets always gives link text (so the
   * `log.Fatal` branch of `PushLinkFromRawText` is unreachable), and the link
   * is the classifier applied to the raw text itself.
   */
  lemma WrappedLinkResolves(server: string, project: string, rawText: string, escape: string -> string)
    ensures Links.HasBrackets("[" + rawText + "]")
    ensures Links.NewSBLink("[" + rawText + "]", server, project, escape)
            == Ok(ResolvedLink(server, project, rawText, escape))
  {
    Links.TrimBracketsOfWrapped(rawText);
  }

  /** `Scan`: the fields of the Go struct. */
  class Scan {
    var server: string
    var project: string
    var texts: seq<Text>

    /** The zero value of the Go struct. */
    constructor()
      ensures server == "" && project == "" && texts == []
    {
      server, project, texts := "", "", [];
    }

    /** `Push`: appends one node; the nodes already pushed stay as they are. */
    method Push(text: Text)
      modifies this`texts
      ensures texts == old(texts) + [text]
      ensures |texts| == |old(texts)| + 1 && texts[..|old(texts)|] == old(texts)
    {
      texts := texts + [text];
    }

    /** `PushLinkFromRawText`: resolves `[rawText]` against the context and pushes the link. */
    method PushLinkFromRawText(rawText: string, escape: string -> string)
      modifies this`texts
      ensures texts == old(texts) + [LinkNode(ResolvedLink(server, project, rawText, escape))]
    {
      var link := Links.NewSBLink("[" + rawText + "]", server, project, escape);
      WrappedLinkResolves(server, project, rawText, escape);
      if link.Err? {
        assert false;
      }
      Push(LinkNode(link.value));
    }
  }
}
