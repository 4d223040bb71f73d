# sbox markup scanner, modelled in Dafny

sbox is a command-line client for Scrapbox, a wiki. Its `scrapbox` package
splits the text of one page into typed segments.

- **Segment kinds.** A segment is plain text, a line break, a bullet point,
  bold, italic or strike-through text, or a link.
- **How it splits.** The scanner is a backtracking parser generated from a
  PEG (parsing expression grammar), `scrapbox/scan.peg.go`. It records a flat
  list of rule tokens while it parses. `Execute` then replays that list: each
  action token pushes one text node into a scan context, which holds the list
  of nodes and the server and project that links resolve against.
- **Helpers.** Pure helpers trim brackets and decorations, and classify the
  text inside `[...]` as an external URL or a page of the project. A
  separate helper splits a page path `server/project/name`.

The project models all of it:

- **Grammar** (`grammar.dfy`). The grammar as pure functions, one per rule
  and per alternative. Each gives the match end and the exact list of tokens
  the generated code adds.
- **Peg** (`peg.dfy`). The generated parser as a class, with the shared
  variables of `Init` as fields. It has one method per rule closure, each
  proved to follow the grammar function. A failing rule leaves `position`
  and the token count as they were. Other operations:
  - `tokens32` with `Add`/`Trim`;
  - `parse`;
  - `Execute`, proved against a replay function;
  - `translatePositions`, proved against a reference map function.
- **Replay** (`replay.dfy`). What `Execute` does with a token list.
  - **Tiling.** Every non-empty page is accepted by root's first
    alternative, and no error action fires. The segments, each rendered as
    its markup, concatenate back to the page.
  - **Empty page.** The empty page is the only input the grammar rejects.
- **Choices** (`choices.dfy`). PEG ordered choice on single-segment pages,
  including every single-segment page of the package's parser tests. The
  mixed page of `scrapbox/parser_test.go:131-132` is covered only by the
  general round trip (`Replay.RootTiles`, `Parsing.ParsedTexts`).
- **Denotations of the helpers:**
  - `links.dfy`: link.go;
  - `boldtexts.dfy`: bold_text.go;
  - `decoratedtexts.dfy`: decorated_text.go;
  - `scan.dfy` and `parsing.dfy`: parser.go;
  - `utl.dfy`: utl/utl.go;
  - `gostrings.dfy`: `strings.Split`, `Join`, `Contains` and `Replace` over
    rune sequences.

Strings are `seq<char>`, that is, sequences of runes. The parser's rune
buffer is a `seq<int>`, because its `endSymbol` sentinel (1114112) is one
past the largest rune.

## Model

| member | source | states |
|---|---|---|
| GoStrings.Split | scrapbox/link.go:26 | `strings.Split` with a one-rune separator: at least one piece; no piece holds the separator; exactly one piece iff the separator does not occur |
| GoStrings.JoinSplit | scrapbox/link.go:26-28 | joining the pieces of a split with the same separator gives back the string |
| GoStrings.SplitNoSeparator | scrapbox/link.go:26 | a string without the separator splits into itself alone |
| GoStrings.SplitAppend | scrapbox/link.go:26 | a separator-free head before the first separator is the first piece |
| GoStrings.JoinSnoc | scrapbox/link.go:33 | a join of two or more pieces is the join of all but the last, the separator and the last |
| GoStrings.JoinCons | scrapbox/link.go:28 | a join of two or more pieces is the first, the separator and the join of the rest |
| GoStrings.SplitConcat | scrapbox/link.go:26 | splitting at a separator splits each side independently |
| GoStrings.ContainsIff | scrapbox/link.go:27 | `strings.Contains` holds iff the marker occurs at some index: containment anywhere, not a prefix test |
| GoStrings.IndexOf | scrapbox/bold_text.go:39-42 | the first occurrence of a rune: it is there and not earlier |
| GoStrings.RemoveFirst | scrapbox/bold_text.go:39-42 | `strings.Replace(s, old, "", 1)`: the string unchanged without `old`, otherwise the string without its first `old` |
| Links.HasBracketsIff | scrapbox/link.go:52-57 | bracketed iff the text is some text wrapped in `[` and `]`; a text of at most one rune is never bracketed |
| Links.TrimBrackets | scrapbox/link.go:43-50 | fails with "invalid text" iff not bracketed; otherwise `"[" + result + "]"` is the text |
| Links.TrimBracketsOfWrapped | scrapbox/link.go:43-50 | trimming undoes wrapping: `trimBrackets("[" + t + "]") == t` for every `t` |
| Links.ParseTrimmedLinkText | scrapbox/link.go:25-41 | never fails; the URL either holds the marker and no space, or is the project page of the whole text with the whole text as title |
| Links.ParseTrimmedLinkTextCases | scrapbox/link.go:25-41 | the three branches, in order: first token with marker gives URL first and the text is URL, space, title; else last token with marker gives text = title, space, URL; else project page URL with the whole text as title |
| Links.UrlFirstToken | scrapbox/link.go:26-29 | the first token has no space, and the text is it followed by a space and the rest rejoined (or just it, with an empty rest) |
| Links.UrlLastToken | scrapbox/link.go:32-35 | the last token has no space, and the text is the others rejoined, a space and it |
| Links.NewSBLink | scrapbox/link.go:16-23 | errors exactly when the brackets are missing; otherwise title and URL are the classifier applied to the interior |
| Links.UrlFirst | scrapbox/link.go:26-30 | a space-free URL token first: the URL is that token and the title is everything after the first space, inner spaces kept |
| Links.UrlLast | scrapbox/link.go:32-36 | a URL token last, after a title whose first token has no marker: the URL is found at the end and the title is the rest |
| Links.PageTitle | scrapbox/link.go:38-40 | no marker in the first or last token: URL `server/project/escape(text)`, title the text unchanged |
| BoldTexts.AsWrittenPanicsExactlyOnBareStar | scrapbox/bold_text.go:23-32 | the validity test as written indexes out of range exactly on `[*]` |
| BoldTexts.AsWrittenAgreesWithIntended | scrapbox/bold_text.go:23-32 | wherever the as-written test does not panic it returns what the guarded test returns |
| BoldTexts.IsValidBoldRawTextIff | scrapbox/bold_text.go:23-32 | valid bold raw text is exactly `"[* " + inner + "]"` for some inner |
| BoldTexts.TrimBoldRawText | scrapbox/bold_text.go:34-43 | fails iff the text is invalid; otherwise removing the first `*` and then the first space drops the first two interior runes, so `rawText == "[* " + result + "]"` |
| BoldTexts.NewBoldText | scrapbox/bold_text.go:11-17 | errors exactly when trimming fails, and otherwise holds the trimmed text |
| BoldTexts.NewBoldTextRoundTrip | scrapbox/bold_text.go:11-21 | round trip both ways: a node built from raw text renders (`String`) to that text, and every node is rebuilt from its rendering |
| BoldTexts.NewBoldTextExamples | scrapbox/bold_text.go:11-43 | bold_text.go's constructor on sample inputs: `* foobar]`, `[* foobar`, `[*foobar]` and `[ foobar]` rejected, `[* foo bar]` gives `foo bar` with the inner space kept |
| DecoratedTexts.UndecoratedRendersAsText | scrapbox/decorated_text.go:32-50 | `PlainText`'s `String` and `GetText` are its text; `NewLineText`'s are a line break, and `NewNewLineText` builds it |
| DecoratedTexts.NewBoldText | scrapbox/decorated_text.go:52-54 | a `*BoldText` with symbol `*` and the text verbatim |
| DecoratedTexts.NewItalicText | scrapbox/decorated_text.go:69-71 | also a `*BoldText`, with symbol `/` and the text verbatim |
| DecoratedTexts.NewStrikeThroughText | scrapbox/decorated_text.go:86-88 | also a `*BoldText`, with symbol `-` and the text verbatim |
| DecoratedTexts.StringWrapsText | scrapbox/decorated_text.go:19-21 | every decorated `String` is `"[" + symbol + " " + GetText() + "]"`, which is bracketed |
| DecoratedTexts.WrappedDecorationTrims | scrapbox/decorated_text.go:104 | trimming the brackets of a decorated rendering leaves the symbol, the space and the text |
| DecoratedTexts.TrimDecoratedRawText | scrapbox/decorated_text.go:104 | succeeds iff the text is `"[" + symbol + " " + inner + "]"`, and then returns that inner |
| DecoratedTexts.TrimDecoratedAgreesWithBold | scrapbox/bold_text.go:34-43 | for `*` the generalised trimmer succeeds exactly when bold_text.go's does, with the same result |
| DecoratedTexts.NewDecoratedText | scrapbox/decorated_text.go:103-109 | errors iff trimming does, with the decoration's name wrapped around the error; otherwise the passed symbol and the trimmed text |
| DecoratedTexts.NewDecoratedTextRoundTrip | scrapbox/decorated_text.go:103-109 | parsing a decorated rendering rebuilds the value, and a parsed value renders to its source |
| DecoratedTexts.NewBoldTextFromBracketsText | scrapbox/decorated_text.go:56-59 | succeeds iff the text is `[* inner]`; the result is a `*BoldText` with symbol `*` rendering to the input; on failure the trimmer's error wrapped in "invalid text for bold text" |
| DecoratedTexts.NewItalicTextFromBracketsText | scrapbox/decorated_text.go:73-76 | succeeds iff the text is `[/ inner]`; the result is a `*ItalicText` with symbol `/` rendering to the input; on failure the trimmer's error wrapped in "invalid text for italic text" |
| DecoratedTexts.NewStrikeThroughTextFromBracketsText | scrapbox/decorated_text.go:90-93 | succeeds iff the text is `[- inner]`; the result is a `*StrikeThroughText` with symbol `-` rendering to the input; on failure the trimmer's error wrapped in "invalid text for strike through text" |
| DecoratedTexts.NewBoldTextFromBracketsTextExamples | scrapbox/decorated_text_test.go:14-39 | the test table: `* foobar]`, `[ foobar]`, `[* foobar` and `[*foobar]` rejected; `[* foobar]` and `[* foo bar]` accepted with texts `foobar` and `foo bar`, each rendering back to its raw text |
| Scan.WrappedLinkResolves | scrapbox/parser.go:22-28 | `[raw]` is always bracketed, so `NewSBLink` cannot fail and the `log.Fatal` branch is unreachable; the link is the classifier applied to `raw` |
| Scan.Scan.constructor | scrapbox/parser.go:8-12 | the zero value: empty server, project and texts |
| Scan.Scan.Push | scrapbox/parser.go:18-20 | appends exactly one node; length grows by one and earlier nodes are unchanged |
| Scan.Scan.PushLinkFromRawText | scrapbox/parser.go:22-28 | appends exactly the link resolved from `[raw]` against the context's server and project |
| Grammar.PlainTextLine | scrapbox/scan.peg.go:819-899 | matches iff the first rune is not `]`, `[` or a line break; then it runs to the first such rune or the end, with its one token |
| Grammar.DecoratedAlt | scrapbox/scan.peg.go:737-755 | matches iff the symbol, a space and a text line follow; the tokens are the line's, its capture and the action |
| Grammar.LinkAlt | scrapbox/scan.peg.go:799-809 | matches iff a text line does; the line's tokens, its capture and `Action10` |
| Grammar.InnerDecoratedText | scrapbox/scan.peg.go:730-818 | matches iff a text line does, whichever alternative takes it, and ends where the line ends |
| Grammar.BracketDecorated | scrapbox/scan.peg.go:690-704 | matches iff `[`, a decorated interior and `]` follow, with the interior's tokens |
| Grammar.BracketPlain | scrapbox/scan.peg.go:706-721 | matches iff `[` and a text line follow; the capture includes the `[` |
| Grammar.BracketText | scrapbox/scan.peg.go:686-729 | a match starts at `[` and its tokens lie inside the span, with no error action |
| Grammar.LiteralBullet | scrapbox/scan.peg.go:511-537 | a match starts with a space; spaces then a text line, captured whole |
| Grammar.LiteralRun | scrapbox/scan.peg.go:539-667 | matches iff the first rune is not a stop; the capture runs to the first stop, then the action |
| Grammar.LiteralNewLine | scrapbox/scan.peg.go:669-677 | matches iff the rune is a line break, with only `Action5` |
| Grammar.Literal | scrapbox/scan.peg.go:499-685 | matches iff a rune is left: every rune starts some literal |
| Grammar.Literals | scrapbox/scan.peg.go:482-491 | `literal*` always matches and stops only at the end |
| Grammar.LiteralsUnfold | scrapbox/scan.peg.go:482-491 | one step of `literal*`: the first literal's tokens, then the rest's |
| Grammar.Expression | scrapbox/scan.peg.go:474-498 | matches iff a rune is left, and then runs to the end |
| Grammar.EOT | scrapbox/scan.peg.go:453-473 | matches only at the sentinel, with one empty token |
| Grammar.CaptureRest | scrapbox/scan.peg.go:395-411 | `<.+>` matches iff a rune is left, capturing the rest |
| Grammar.RootComplete | scrapbox/scan.peg.go:381-389 | `expression EOT` matches iff the input is non-empty, with no error action |
| Grammar.RootTrailing | scrapbox/scan.peg.go:390-419 | root's second alternative, `expression <.+> Action0 EOT`, never matches: an expression runs to the end, where `<.+>` fails, so its error report is dead code |
| Grammar.RootUnparsed | scrapbox/scan.peg.go:420-443 | root's third alternative, `<.+> Action1 EOT`, matches iff a rune is left; it captures the rest and carries the error action `Action1`, so on a non-empty page it is shadowed by the first alternative |
| Grammar.Root | scrapbox/scan.peg.go:376-452 | root matches iff the input is non-empty, and then by its first alternative, covering the input with no error action |
| Replay.EmittedCount | scrapbox/scan.peg.go:263-311 | each of `Action2`..`Action10` pushes exactly one node and every other token none |
| Replay.EmittedAppend | scrapbox/scan.peg.go:263-311 | replaying a concatenation replays each part in turn, carrying the capture over |
| Replay.EmittedSnoc | scrapbox/scan.peg.go:263-311 | replaying one more token adds its own segment after the others' |
| Replay.RenderAppend | scrapbox/scan.peg.go:263-311 | the markup of a concatenation of segments is the concatenation of their markup |
| Replay.Silent | scrapbox/scan.peg.go:263-311 | rule tokens and the error actions push nothing and keep the capture |
| Replay.CaptureThenAction | scrapbox/scan.peg.go:266-268 | a capture token followed by an action emits that action's segment with exactly the captured runes |
| Replay.AlternativeEmits | scrapbox/scan.peg.go:737-809 | a text-line alternative under its rule's token emits exactly its action's segment of the captured runes |
| Replay.DecoratedTiles | scrapbox/scan.peg.go:737-797 | a decoration's segment renders, with brackets, as the bracketed runes it covers |
| Replay.InnerTiles | scrapbox/scan.peg.go:730-818 | a decorated or link interior renders, with brackets, as the bracketed runes |
| Replay.BracketTiles | scrapbox/scan.peg.go:686-729 | a bracket text renders as the runes it covers |
| Replay.BracketDecoratedTiles | scrapbox/scan.peg.go:690-704 | the first bracket-text alternative renders as the runes it covers |
| Replay.BracketPlainTiles | scrapbox/scan.peg.go:706-721 | an unclosed bracket renders as the runes it covers, the `[` included |
| Replay.LiteralTiles | scrapbox/scan.peg.go:499-685 | every literal renders as the runes it covers |
| Replay.BulletTiles | scrapbox/scan.peg.go:511-537 | a bullet line renders as its runes |
| Replay.RunTiles | scrapbox/scan.peg.go:539-667 | a plain run renders as its runes |
| Replay.NewLineTiles | scrapbox/scan.peg.go:669-677 | a line break renders as `"\n"` |
| Replay.LiteralsTile | scrapbox/scan.peg.go:482-491 | zero or more literals render as the runes to the end |
| Replay.ExpressionTiles | scrapbox/scan.peg.go:474-498 | an expression renders as the runes to the end |
| Replay.RootTiles | scrapbox/scan.peg.go:376-389 | tiling: a non-empty page is accepted by `expression EOT` to the end, no error action fires, and the rendered segments concatenate to the page |
| Replay.RootOfExpression | scrapbox/scan.peg.go:445-446 | the end-of-text and root tokens add nothing to the replay |
| Replay.EmptyInputFails | scrapbox/scan.peg.go:376-452 | the empty page fails all three root alternatives, and root |
| Peg.GrownKeeps | scrapbox/scan.peg.go:155-160 | the doubled slice has room for the index, keeps every old entry and is zero after them |
| Peg.Runes | scrapbox/scan.peg.go:326 | `[]rune(s)`: the same runes, none of them the sentinel |
| Peg.Tokens32.Make | scrapbox/scan.peg.go:335 | `make([]token32, n)`: n zero tokens |
| Peg.Tokens32.Copy | scrapbox/scan.peg.go:342 | the parser's token slice is the rules' slice |
| Peg.Tokens32.Trim | scrapbox/scan.peg.go:112-114 | the slice is cut to its first `length` entries |
| Peg.Tokens32.Add | scrapbox/scan.peg.go:155-166 | the slice grown when needed, with the new token at `index` and every other entry unchanged |
| Peg.LineSymbolCounts | scrapbox/scan.peg.go:204-209 | the line is one more than the line breaks read; the symbol counts the runes since the last |
| Peg.AscendingIff | scrapbox/scan.peg.go:201 | neighbour-by-neighbour order is order of every pair |
| Peg.Insert | scrapbox/scan.peg.go:201 | inserting into a sorted list keeps it sorted and adds exactly that element |
| Peg.SortInts | scrapbox/scan.peg.go:201 | `sort.Ints`: ascending and a permutation of the input |
| Peg.RecordedIs | scrapbox/scan.peg.go:210-211 | the positions recorded, whatever their order, are every listed position inside the runes |
| Peg.TranslatePositions | scrapbox/scan.peg.go:199-222 | the map is the reference function `Translation`: nothing when a position is negative, otherwise every position inside the runes, with the line and symbol after its rune |
| Peg.TranslationReached | scrapbox/scan.peg.go:203-219 | where the scan stops, the positions recorded are the map `Translation` gives |
| Peg.ReadRune | scrapbox/scan.peg.go:205-209 | one rune read moves the line and symbol as `LineSymbol` of one more rune says |
| Peg.LineSymbolStep | scrapbox/scan.peg.go:205-209 | one more rune: a line break starts a new line at symbol 0, any other rune moves the symbol by one |
| Peg.RecordAt | scrapbox/scan.peg.go:210-216 | records the reached position once and skips its duplicates |
| Peg.RecordAgain | scrapbox/scan.peg.go:212-215 | a duplicate position adds nothing |
| Peg.NegativeFirst | scrapbox/scan.peg.go:201-210 | when some position is negative the smallest one is, so the scan never records |
| Peg.RecordedAll | scrapbox/scan.peg.go:217 | stopping past the runes leaves exactly the positions inside them recorded |
| Peg.TextOf | scrapbox/scan.peg.go:274-309 | the node each action pushes: kind for kind; every node but a link renders as its segment's markup; a link is its capture resolved |
| Peg.TextsOf | scrapbox/scan.peg.go:263-311 | one node per segment, in order |
| Peg.TextsOfAppend | scrapbox/scan.peg.go:263-311 | the nodes of a concatenation are the nodes of each part |
| Peg.ReplayStep | scrapbox/scan.peg.go:263-311 | one iteration of the loop of `Execute`: the nodes for one more token are its own segment's after the others |
| Peg.Parser.Init | scrapbox/scan.peg.go:316-335 | state after `Init`: position, token index and `max` zero, the token array of `math.MaxInt16` zero tokens, an empty scan context |
| Peg.Parser.Reset | scrapbox/scan.peg.go:322-331 | the runes of `Buffer` with the sentinel appended; position, token index and `max` reset |
| Peg.Parser.RuneIs | scrapbox/scan.peg.go:828 | a rune test succeeds iff not at the sentinel and the rune is the one asked for |
| Peg.Parser.MatchDot | scrapbox/scan.peg.go:358-364 | consumes one rune iff not at the sentinel; position never passes the sentinel |
| Peg.Parser.Add | scrapbox/scan.peg.go:350-356 | one more token with the span to `position`; `max` replaced iff the span is non-empty and ends further right |
| Peg.Parser.Restore | scrapbox/scan.peg.go:390-391 | `position, tokenIndex = position2, tokenIndex2`: the tokens written before the saved index are the ones there |
| Peg.Parser.Action | scrapbox/scan.peg.go:901-996 | each action closure adds its empty token and succeeds |
| Peg.Parser.LineRunes | scrapbox/scan.peg.go:855-893 | the loop of `plainTextLine` stops at the first bracket, line break or sentinel |
| Peg.Parser.PlainTextLine | scrapbox/scan.peg.go:819-899 | follows `Grammar.PlainTextLine`: on success the grammar's end and tokens, on failure position and tokens restored; `max.end` does not decrease |
| Peg.Parser.DecoratedAlt | scrapbox/scan.peg.go:737-755 | follows `Grammar.DecoratedAlt`, for each of the three symbols |
| Peg.Parser.LinkAlt | scrapbox/scan.peg.go:799-809 | follows `Grammar.LinkAlt` |
| Peg.Parser.InnerDecoratedText | scrapbox/scan.peg.go:730-818 | follows `Grammar.InnerDecoratedText`: the four alternatives in order, each failure restored |
| Peg.Parser.BracketDecorated | scrapbox/scan.peg.go:690-704 | follows `Grammar.BracketDecorated` |
| Peg.Parser.BracketPlain | scrapbox/scan.peg.go:706-721 | follows `Grammar.BracketPlain` |
| Peg.Parser.BracketText | scrapbox/scan.peg.go:686-729 | follows `Grammar.BracketText` |
| Peg.Parser.Spaces | scrapbox/scan.peg.go:516-531 | the loop of `' '+` stops at the first rune other than a space |
| Peg.Parser.LiteralBullet | scrapbox/scan.peg.go:511-537 | follows `Grammar.LiteralBullet` |
| Peg.Parser.RunRunes | scrapbox/scan.peg.go:539-602 | the loop of a plain run stops at its stop rune, a line break or the sentinel |
| Peg.Parser.LiteralRun | scrapbox/scan.peg.go:539-667 | follows `Grammar.LiteralRun`, for both plain alternatives |
| Peg.Parser.LiteralNewLine | scrapbox/scan.peg.go:669-677 | follows `Grammar.LiteralNewLine` |
| Peg.Parser.Literal | scrapbox/scan.peg.go:499-685 | follows `Grammar.Literal`: the five alternatives in order, each failure restored |
| Peg.Parser.LiteralsLoop | scrapbox/scan.peg.go:482-491 | the loop of `literal*` adds exactly the grammar's tokens and stops at the sentinel |
| Peg.Parser.Expression | scrapbox/scan.peg.go:474-498 | follows `Grammar.Expression` |
| Peg.Parser.EOT | scrapbox/scan.peg.go:453-473 | follows `Grammar.EOT` |
| Peg.Parser.Rest | scrapbox/scan.peg.go:400-409 | the loop of `.+` reads to the sentinel |
| Peg.Parser.CaptureRest | scrapbox/scan.peg.go:395-411 | follows `Grammar.CaptureRest` |
| Peg.Parser.RootComplete | scrapbox/scan.peg.go:381-389 | follows `Grammar.RootComplete` |
| Peg.Parser.RootTrailing | scrapbox/scan.peg.go:390-419 | follows `Grammar.RootTrailing` |
| Peg.Parser.RootUnparsed | scrapbox/scan.peg.go:420-443 | follows `Grammar.RootUnparsed` |
| Peg.Parser.Root | scrapbox/scan.peg.go:376-452 | follows `Grammar.Root`: the three alternatives in order, then the root token |
| Peg.Parser.Parse | scrapbox/scan.peg.go:336-348 | no error iff a rune is left from the start position; then the tokens are exactly root's; otherwise the error holds the `max` from before the call (root consumed nothing) and the tokens are the whole array |
| Peg.Parser.Execute | scrapbox/scan.peg.go:261-314 | the scan context's nodes grow by exactly the nodes of the replayed token list, in token order |
| Parsing.Parse | scrapbox/parser.go:30-43 | fails iff the page is empty, with the zero token as the furthest match; otherwise the nodes of the page's segments resolved against `https://scrapbox.io` and `niboshi` |
| Parsing.ParsedTexts | scrapbox/parser.go:36-42 | a parsed page holds one node per emitting action token, never an error action; non-link nodes render as their segments, links are their segments resolved, and the segments render back to the page |
| Choices.BoldPage | scrapbox/scan.peg.go:737-755 | `[* t]` with a one-line `t` is a single bold segment `t` |
| Choices.ItalicPage | scrapbox/scan.peg.go:757-776 | `[/ t]` is a single italic segment `t` |
| Choices.StrikeThroughPage | scrapbox/scan.peg.go:778-797 | `[- t]` is a single strike-through segment `t` |
| Choices.LinkPage | scrapbox/scan.peg.go:799-809 | `[t]` with no decoration prefix is a single link segment `t` |
| Choices.UnclosedPage | scrapbox/scan.peg.go:706-721 | `[t` never closed is a single plain segment that includes the `[` |
| Choices.UnopenedPage | scrapbox/scan.peg.go:539-602 | a page that does not start with a space (a bullet point) and holds no `[` and no line break (a `]` allowed) is a single plain segment |
| Choices.UrlLinkParsed | scrapbox/parser.go:30-43 | `[url title]` with a URL first: one link node whose URL is `url` and whose title is `title` |
| Choices.BoldTestPage | scrapbox/parser_test.go:122 | `[* Bold]` is bold `Bold` |
| Choices.ItalicTestPage | scrapbox/parser_test.go:125 | `[/ Italic]` is italic `Italic` |
| Choices.StrikeThroughTestPage | scrapbox/parser_test.go:128 | `[- Strike Through]` is strike-through `Strike Through`, space kept |
| Choices.LinkTestPage | scrapbox/parser_test.go:46 | `[link]` is one link segment |
| Choices.LinkParsed | scrapbox/parser_test.go:46-52 | `[link]` parses to a link titled `link` to the page `link` of the fixed project |
| Choices.NotBoldTestPage | scrapbox/parser_test.go:55 | `[*NotBold]` (no space) falls through to the link alternative |
| Choices.SampleLinkParsed | scrapbox/parser_test.go:64-70 | `[https://sample.com sample link]` is one link segment, parsed to URL `https://sample.com` titled `sample link` |
| Choices.UnclosedTestPage | scrapbox/parser_test.go:16 | `[not link` is one plain segment, bracket included |
| Choices.UnopenedTestPage | scrapbox/parser_test.go:15 | `not link]` is one plain segment |
| Choices.PlainTestPage | scrapbox/parser_test.go:14 | `foobar` is one plain segment |
| Utl.ParsePagePath | utl/utl.go:19-37 | the name has no `/` and is the path iff the path has no `/`; without `/` the defaults are used |
| Utl.NameFollowsLastSlash | utl/utl.go:20-21 | with a `/`, the name is exactly what follows the last `/` |
| Utl.ProjectAndName | utl/utl.go:23-27 | `project/name`: that project and name, the default server |
| Utl.ServerProjectAndName | utl/utl.go:28-30 | `server/project/name`: all three parts taken from the path |
| Utl.LeadingSegmentsIgnored | utl/utl.go:28-30 | segments left of the server are ignored |

## Left out

- bold_text.go and decorated_text.go both declare `BoldText`, `NewBoldText` and `(*BoldText).String` (bold_text.go:9, 11, 19; decorated_text.go:24, 52, 61), so bold_text.go and decorated_text.go cannot be compiled together. `Execute` calls `NewBoldText(text)` with one result and pushes it (scan.peg.go:297), which only decorated_text.go's version fits. So `Peg.TextOf` uses `DecoratedTexts.NewBoldText`, and `boldtexts.dfy` models a file the parse never reaches.
- BoldTexts.TrimBoldRawText, BoldTexts.NewBoldText: built on the corrected validity test, so `[*]` is an error here where bold_text.go panics (see Findings; `BoldTexts.AsWrittenPanicsExactlyOnBareStar` models the panic).
- Integer widths: `position`, `tokenIndex` and the token bounds are `uint32` in the source and unbounded here. A page long enough to wrap them is not modelled.
- Peg.Tokens32.Add: `tree` is a sequence value, so the in-place write into a slice shared between `tokens32` values is not modelled. `Add` requires `index < 2 * |tree|`, which every call meets, because the index grows by one per call.
- Peg.Tokens32.Copy: `p.tokens32 = tree` copies the struct, so both share the slice; the model copies the value. Nothing writes the slice after the copy.
- Peg.SortInts: `sort.Ints` sorts the caller's slice in place. The model sorts a value (insertion sort) and does not model the mutation of the caller's slice.
- Peg.TranslatePositions: requires a position when the runes are non-empty, because with no positions Go's `positions[j]` panics on the first rune. With no runes Go returns the empty map; so does the model.
- Replay.NextText: a capture token that lies outside the runes would make the Go slice expression panic. The model keeps the previous capture, and no such token occurs in a parse.
- Peg.Parser.Execute: requires that every token lies inside the runes, which `Parse` guarantees on success.
- `Scan.Err`, `parseError.Error`, `token32.String`, `tokens32.AST`, `Print`, `PrettyPrint` and `PrintSyntaxTree`: printing and message formatting, with no effect on the parse.
- `NewBulletPointText` and the interface `Text` are defined outside the modelled files and are not modelled. A bullet-point node records the capture it is built from.
- `SBLink`'s embedded `SBNode` is nil and `SBLink` has no `String`. So the round trips of `parser_test.go:85-89` and `parser_test.go:136-153` are stated over captures, through `Replay.RootTiles` and `Parsing.ParsedTexts`.
- `trimDecoratedRawText` is called by decorated_text.go and is not among the modelled files. It is modelled as bold_text.go's trimmer generalised over the symbol, with the length guard (see Findings).
- `url.PathEscape` (percent-encoding, section 2.1 of RFC 3986) is the function parameter `escape`.
- `reset` appends the sentinel only when the last rune is not already the sentinel. A rune of a Dafny string can never be 1114112, so the model always appends it.
- `parse`'s variadic rule argument: only the default start rule `root`, which `Parse` uses, is modelled.
- UTF-8: strings are rune sequences, so decoding and invalid byte sequences are not modelled.
- The tests call `Parse` with three arguments, but parser.go's `Parse` takes one and fixes the server and project; the model follows parser.go. The tests' `Link` type is not modelled.
- The test expectations that contradict link.go are not modelled. In `link_test.go`, `/project/page` (lines 136-142) expects `https://scrapbox.io/project/page`, and `/project` (lines 144-150) expects `https://scrapbox.io/project`. For both, link.go:38-39 gives the server, `/niboshi/` and the escaped text. The `%20texts` URL (line 132) does not match the text `Example other text` either.
- `Page.String` (`path.Join`, which also cleans the path) and `GenerateBodyQuery` (`url.Values.Encode`) are library formatting.
- The `cmd/` command-line wiring, `sandbox/sandbox.go`, `pigeon_parser_test.go` and `scrapbox.go`: I/O, stale code or interfaces only.

## Findings

| source | as written | input that shows it | evidently intended | confidence | as-written member | corrected member |
|---|---|---|---|---|---|---|
| scrapbox/bold_text.go:29-31 | checks `len(trimmedRawTextList) > 0`, then reads index 1 | `[*]`: the interior is `*`, so index 1 is out of range and the call panics | `len >= 2`, so `[*]` is simply invalid | not executed | BoldTexts.AsWrittenPanicsExactlyOnBareStar | BoldTexts.IsValidBoldRawTextIff |
