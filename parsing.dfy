/**
 * `Parse` of scrapbox/parser.go: builds a parser over the page text, fixes
 * the server and project that links resolve against, runs the grammar and,
 * when it matches, replays the actions into the list of text nodes.
 */
module Parsing {
  import opened Grammar
  import Replay
  import Scan
  import Peg

  /** The project every link of a parsed page resolves against. */
  const Project: string := "niboshi"
  /** The server every link of a parsed page resolves against. */
  const Server: string := "https://scrapbox.io"

  /** The two results of the Go function: the texts, or the parse error. */
  datatype Outcome = Parsed(texts: seq<Scan.Text>) | Failed(err: Peg.ParseError)

  /**
   * `Parse`: the empty page is the only input the grammar rejects, with the
   * zero token as the furthest match; every other page yields the nodes for
   * its segments, in order, with links resolved against `Server`/`Project`.
   */
  method Parse(s: string, escape: string -> string) returns (r: Outcome)
    ensures |s| == 0 <==> r.Failed?
    ensures r.Failed? ==> r.err == Peg.ParseError(Peg.ZeroToken)
    ensures r.Parsed? ==> |s| > 0 && r.texts == Peg.TextsOf(Replay.Emissions(s), Server, Project, escape)
  {
    var parser := new Peg.Parser.Init(s);
    parser.s.project := Project;
    parser.s.server := Server;
    var err := parser.Parse();
    if err.Some? {
      return Failed(err.value);
    }
    ghost var toks := parser.tokens32.tree;
    assert toks == Root(s, 0).toks;
    assert parser.s.texts == [] && parser.s.server == Server && parser.s.project == Project;
    parser.Execute(escape);
    assert parser.s.texts == Peg.TextsOf(Replay.Emitted(toks, s, ""), Server, Project, escape);
    return Parsed(parser.s.texts);
  }

  /**
   * What a parsed page holds: one node per emitting action token of the
   * match, in order; every node but a link renders as its segment, each
   * link is its segment resolved against `Server` and `Project`, and the
   * segments' markup concatenated is the page. `Action0`/`Action1` (the
   * error reports) never occur in the match.
   */
  lemma ParsedTexts(s: string, escape: string -> string)
    requires |s| > 0
    ensures var es := Replay.Emissions(s);
            var ts := Peg.TextsOf(es, Server, Project, escape);
            && |ts| == |es| == Replay.CountEmitting(Root(s, 0).toks)
            && NoErrorActions(Root(s, 0).toks)
            && Replay.Render(es) == s
            && (forall k :: 0 <= k < |ts| && !ts[k].LinkNode? ==> Peg.Markup(ts[k]) == Replay.Rendered(es[k]))
            && (forall k :: 0 <= k < |ts| && ts[k].LinkNode? ==>
                  es[k].Link? && ts[k].link == Scan.ResolvedLink(Server, Project, es[k].text, escape))
  {
    Replay.RootTiles(s);
    Replay.EmittedCount(Root(s, 0).toks, s, "");
  }
}
