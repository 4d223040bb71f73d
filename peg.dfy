/**
 * The generated PEG parser of scrapbox/scan.peg.go as a stateful machine:
 * the growable token array, the parser state that the rule closures of
 * `Init` share (`buffer`, `position`, `tokenIndex`, `max`), one method per
 * rule and per alternative, `parse`, and `Execute`, which replays the token
 * list into the scan context.
 *
 * Every rule method is proved against the pure grammar of the module
 * Grammar: on success it has moved `position` to the end the grammar gives
 * and appended exactly the grammar's tokens; on failure `position` and
 * `tokenIndex` are back where they were and the tokens before `tokenIndex`
 * are the ones that were there.
 *
 * `position`, `tokenIndex` and token bounds are `uint32` in the source; they
 * are unbounded here.
 */
module Peg {
  import opened Grammar
  import opened Results
  import Replay
  import Scan
  import DecoratedTexts

  /** `math.MaxInt16`: the initial length of the token array. */
  const InitialTokens: nat := 32767

  /** The zero value of `token32`. */
  const ZeroToken: Token32 := Token32(RuleUnknown, 0, 0)

  /**
   * The token slice `tokens32.Add` writes into for `index`: the same slice
   * when `index` is inside it, otherwise one of twice the length holding the
   * old entries first and zero tokens after them.
   */
  function Grown(toks: seq<Token32>, index: nat): (r: seq<Token32>)
  {
    if index < |toks| then toks else toks + seq(|toks|, _ => ZeroToken)
  }

  /** Growing keeps every old entry and gives room for `index` when it is at most one slice length past the end. */
  lemma GrownKeeps(toks: seq<Token32>, index: nat)
    requires index < 2 * |toks|
    ensures index < |Grown(toks, index)|
    ensures |Grown(toks, index)| == if index < |toks| then |toks| else 2 * |toks|
    ensures Grown(toks, index)[..|toks|] == toks
    ensures forall k :: |toks| <= k < |Grown(toks, index)| ==> Grown(toks, index)[k] == ZeroToken
  {
  }

  /** The runes of a string, as `[]rune(s)` gives them. */
  function Runes(s: string): (r: seq<int>)
    ensures |r| == |s|
    ensures forall k :: 0 <= k < |s| ==> r[k] == s[k] as int
    ensures End !in r
  {
    seq(|s|, k requires 0 <= k < |s| => s[k] as int)
  }

  /** A text line's tokens, then a capture and an action token. */
  lemma Trailing(a: seq<Token32>, b: seq<Token32>, x: Token32, y: Token32)
    ensures a + b + [x] + [y] == a + (b + [x, y])
  {
  }

  /** Token lists concatenate associatively. */
  lemma Assoc<T>(a: seq<T>, b: seq<T>, c: seq<T>)
    ensures a + b + c == a + (b + c)
  {
  }

  /** Cutting the written tokens back to an earlier count leaves the tokens written before it. */
  lemma Backtracked(a: seq<Token32>, w0: seq<Token32>, more: seq<Token32>)
    requires |w0 + more| <= |a| && a[..|w0 + more|] == w0 + more
    ensures a[..|w0|] == w0
  {
    assert a[..|w0|] == a[..|w0 + more|][..|w0|];
  }

  /** `tokens32`: a slice of tokens. */
  class Tokens32 {
    var tree: seq<Token32>

    /** `tokens32{tree: make([]token32, n)}`. */
    constructor Make(n: nat)
      ensures tree == seq(n, _ => ZeroToken)
    {
      tree := seq(n, _ => ZeroToken);
    }

    /** `p.tokens32 = tree`: a copy of the struct, sharing nothing this model can change. */
    constructor Copy(from: Tokens32)
      ensures tree == from.tree
    {
      tree := from.tree;
    }

    /** `Trim`: cuts the slice to `newLength`. */
    method Trim(newLength: nat)
      requires newLength <= |tree|
      modifies this
      ensures tree == old(tree[..newLength])
    {
      tree := tree[..newLength];
    }

    /**
     * `Add`: writes a token at `index`, first doubling the slice (and
     * copying the old entries) when `index` is past its end.
     */
    method Add(rule: PegRule, begin: nat, end: nat, index: nat)
      requires index < 2 * |tree|
      modifies this
      ensures tree == Grown(old(tree), index)[index := Token32(rule, begin, end)]
    {
      if index >= |tree| {
        var expanded := seq(2 * |tree|, _ => ZeroToken);
        expanded := tree + expanded[|tree|..];
        tree := expanded;
      }
      tree := tree[index := Token32(rule, begin, end)];
    }
  }

  /** `textPosition`: a line, counted from 1, and the runes read on it. */
  datatype TextPosition = TextPosition(line: int, symbol: int)

  /** The text position after reading the runes `prefix`. */
  function LineSymbol(prefix: seq<int>): TextPosition
    decreases |prefix|
  {
    if |prefix| == 0 then TextPosition(1, 0)
    else
      var q := LineSymbol(prefix[..|prefix| - 1]);
      if prefix[|prefix| - 1] == '\n' as int then TextPosition(q.line + 1, 0) else TextPosition(q.line, q.symbol + 1)
  }

  /**
   * The line is one more than the line breaks read, and the symbol counts the
   * runes since the last of them (all the runes when there is none).
   */
  lemma {:induction false} LineSymbolCounts(prefix: seq<int>)
    ensures LineSymbol(prefix).line == 1 + multiset(prefix)['\n' as int]
    ensures 0 <= LineSymbol(prefix).symbol <= |prefix|
    ensures '\n' as int !in prefix ==> LineSymbol(prefix).symbol == |prefix|
    ensures |prefix| > 0 && prefix[|prefix| - 1] == '\n' as int ==> LineSymbol(prefix).symbol == 0
    decreases |prefix|
  {
    if |prefix| > 0 {
      var init := prefix[..|prefix| - 1];
      assert prefix == init + [prefix[|prefix| - 1]];
      LineSymbolCounts(init);
    }
  }

  predicate SortedInts(s: seq<int>)
  {
    forall a, b :: 0 <= a < b < |s| ==> s[a] <= s[b]
  }

  /** Ascending order stated neighbour by neighbour. */
  predicate Ascending(s: seq<int>)
    decreases |s|
  {
    |s| < 2 || (s[0] <= s[1] && Ascending(s[1..]))
  }

  /** Neighbour-by-neighbour order is the same as order of every pair. */
  lemma {:induction false} AscendingIff(s: seq<int>)
    ensures Ascending(s) <==> SortedInts(s)
    decreases |s|
  {
    if |s| >= 2 {
      AscendingIff(s[1..]);
      if SortedInts(s) {
        assert SortedInts(s[1..]) by {
          forall a, b | 0 <= a < b < |s| - 1 ensures s[1..][a] <= s[1..][b] {
            assert s[a + 1] <= s[b + 1];
          }
        }
      }
      if Ascending(s) {
        forall a, b | 0 <= a < b < |s| ensures s[a] <= s[b] {
          if a == 0 && b > 1 {
            assert s[1..][0] <= s[1..][b - 1];
          } else if a > 0 {
            assert s[1..][a - 1] <= s[1..][b - 1];
          }
        }
      }
    }
  }

  /** Two elements of an ascending list are in the order of their indices. */
  lemma AscendingAt(s: seq<int>, a: nat, b: nat)
    requires Ascending(s) && a < |s| && b < |s|
    ensures a <= b ==> s[a] <= s[b]
  {
    AscendingIff(s);
  }

  /** `x` put into the sorted list `s` before the first larger element. */
  function Insert(x: int, s: seq<int>): (r: seq<int>)
    requires Ascending(s)
    ensures |r| == |s| + 1 && r[0] == (if |s| == 0 || x <= s[0] then x else s[0])
    ensures Ascending(r) && multiset(r) == multiset(s) + multiset{x}
    decreases |s|
  {
    if |s| == 0 || x <= s[0] then [x] + s
    else
      var rest := Insert(x, s[1..]);
      assert s == [s[0]] + s[1..];
      assert ([s[0]] + rest)[1..] == rest;
      [s[0]] + rest
  }

  /** `sort.Ints`: the same integers in ascending order. */
  function SortInts(s: seq<int>): (r: seq<int>)
    ensures Ascending(r) && multiset(r) == multiset(s)
    decreases |s|
  {
    if |s| == 0 then []
    else
      assert s == [s[0]] + s[1..];
      Insert(s[0], SortInts(s[1..]))
  }

  /** What the scan records for the positions `ps`, taken in order: each one inside the runes, with the text position after its rune. */
  function Recorded(buffer: seq<int>, ps: seq<int>): map<int, TextPosition>
    decreases |ps|
  {
    if |ps| == 0 then map[]
    else
      var p := ps[|ps| - 1];
      var m := Recorded(buffer, ps[..|ps| - 1]);
      if 0 <= p < |buffer| then m[p := LineSymbol(buffer[..p + 1])] else m
  }

  /** The order of recording does not matter: the result is every listed position inside the runes. */
  lemma {:induction false} RecordedIs(buffer: seq<int>, ps: seq<int>)
    ensures Recorded(buffer, ps) == map p | p in ps && 0 <= p < |buffer| :: LineSymbol(buffer[..p + 1])
    decreases |ps|
  {
    if |ps| > 0 {
      var init := ps[..|ps| - 1];
      assert ps == init + [ps[|ps| - 1]];
      RecordedIs(buffer, init);
    }
  }

  /**
   * What `translatePositions` computes: when a position is negative, nothing
   * (the scan waits for that position forever); otherwise every position
   * inside the runes, with the text position after its rune.
   */
  function Translation(buffer: seq<int>, positions: seq<int>): map<int, TextPosition>
  {
    if exists k :: 0 <= k < |positions| && positions[k] < 0 then map[]
    else map p | p in positions && 0 <= p < |buffer| :: LineSymbol(buffer[..p + 1])
  }

  /**
   * `translatePositions`: sorts the positions, then reads the runes once,
   * counting lines and symbols, and records each position when the scan
   * reaches it, stopping after the last one.
   */
  method TranslatePositions(buffer: seq<int>, positions: seq<int>) returns (translations: map<int, TextPosition>)
    requires |buffer| > 0 ==> |positions| > 0
    ensures translations == Translation(buffer, positions)
  {
    var sorted := SortInts(positions);
    var length, j, line, symbol := |sorted|, 0, 1, 0;
    translations := map[];
    assert sorted[..0] == [];
    var i := 0;
    while i < |buffer|
      invariant 0 <= i <= |buffer| && 0 <= j <= length == |sorted|
      invariant i < |buffer| ==> j < length
      invariant TextPosition(line, symbol) == LineSymbol(buffer[..i])
      invariant translations == Recorded(buffer, sorted[..j])
      invariant j > 0 ==> 0 <= sorted[0]
      invariant j > 0 ==> sorted[j - 1] < i
      invariant j < length ==> sorted[j] >= i || (j == 0 && sorted[0] < 0)
    {
      line, symbol := ReadRune(buffer, i, line, symbol);
      if i == sorted[j] {
        translations, j := RecordAt(buffer, sorted, i, j, translations, TextPosition(line, symbol));
        if j == length {
          break;
        }
      }
      i := i + 1;
    }
    TranslationReached(buffer, positions, sorted, j);
  }

  /**
   * Where the scan stops, what it recorded is the translation: nothing when
   * the smallest position is negative (it is never reached), and otherwise
   * all positions inside the runes.
   */
  lemma TranslationReached(buffer: seq<int>, positions: seq<int>, sorted: seq<int>, j: nat)
    requires Ascending(sorted) && multiset(sorted) == multiset(positions) && j <= |sorted|
    requires j > 0 ==> 0 <= sorted[0]
    requires j < |sorted| ==> sorted[j] >= |buffer| || (j == 0 && sorted[0] < 0)
    ensures Recorded(buffer, sorted[..j]) == Translation(buffer, positions)
  {
    if exists k :: 0 <= k < |positions| && positions[k] < 0 {
      NegativeFirst(positions, sorted);
      assert j == 0 && sorted[..j] == [];
    } else {
      if j < |sorted| {
        assert sorted[0] in multiset(positions);
      }
      RecordedAll(buffer, positions, sorted, j);
    }
  }

  method ReadRune(buffer: seq<int>, i: nat, line: int, symbol: int) returns (line': int, symbol': int)
    requires i < |buffer| && TextPosition(line, symbol) == LineSymbol(buffer[..i])
    ensures TextPosition(line', symbol') == LineSymbol(buffer[..i + 1])
  {
    LineSymbolStep(buffer, i);
    if buffer[i] == '\n' as int {
      line', symbol' := line + 1, 0;
    } else {
      line', symbol' := line, symbol + 1;
    }
  }

  /** Reading one more rune moves the text position by that rune. */
  lemma LineSymbolStep(buffer: seq<int>, i: nat)
    requires i < |buffer|
    ensures LineSymbol(buffer[..i + 1]) ==
            if buffer[i] == '\n' as int then TextPosition(LineSymbol(buffer[..i]).line + 1, 0)
            else TextPosition(LineSymbol(buffer[..i]).line, LineSymbol(buffer[..i]).symbol + 1)
  {
    assert buffer[..i + 1][..i] == buffer[..i];
  }

  /**
   * The scan reaching the position `sorted[j]`: records it with the text
   * position after its rune, then passes over its repeats.
   */
  method RecordAt(buffer: seq<int>, sorted: seq<int>, i: nat, j: nat, translations: map<int, TextPosition>, at: TextPosition)
    returns (recorded: map<int, TextPosition>, next: nat)
    requires Ascending(sorted) && j < |sorted| && sorted[j] == i < |buffer|
    requires translations == Recorded(buffer, sorted[..j]) && at == LineSymbol(buffer[..i + 1])
    ensures j < next <= |sorted| && sorted[next - 1] == i
    ensures next < |sorted| ==> sorted[next] > i
    ensures recorded == Recorded(buffer, sorted[..next])
  {
    RecordOne(buffer, sorted, j);
    recorded := translations[sorted[j] := at];
    next := j + 1;
    while next < |sorted| && i == sorted[next]
      invariant j < next <= |sorted| && sorted[next - 1] == i
      invariant recorded == Recorded(buffer, sorted[..next])
    {
      RecordAgain(buffer, sorted, next);
      next := next + 1;
    }
    if next < |sorted| {
      AscendingAt(sorted, next - 1, next);
    }
  }

  /** Recording one more position. */
  lemma RecordOne(buffer: seq<int>, sorted: seq<int>, j: nat)
    requires j < |sorted| && 0 <= sorted[j] < |buffer|
    ensures Recorded(buffer, sorted[..j + 1])
            == Recorded(buffer, sorted[..j])[sorted[j] := LineSymbol(buffer[..sorted[j] + 1])]
  {
    assert sorted[..j + 1][..j] == sorted[..j];
  }

  /** A repeated position adds nothing. */
  lemma RecordAgain(buffer: seq<int>, sorted: seq<int>, j: nat)
    requires 0 < j < |sorted| && sorted[j] == sorted[j - 1]
    ensures Recorded(buffer, sorted[..j + 1]) == Recorded(buffer, sorted[..j])
  {
    assert sorted[..j + 1][..j] == sorted[..j];
    RecordedIs(buffer, sorted[..j]);
    if 0 <= sorted[j] < |buffer| {
      assert sorted[j - 1] == sorted[..j][j - 1];
      assert sorted[j] in Recorded(buffer, sorted[..j]);
    }
  }

  /** When some position is negative, the smallest is. */
  lemma NegativeFirst(positions: seq<int>, sorted: seq<int>)
    requires Ascending(sorted) && multiset(sorted) == multiset(positions)
    requires exists k :: 0 <= k < |positions| && positions[k] < 0
    ensures |sorted| > 0 && sorted[0] < 0
  {
    var k :| 0 <= k < |positions| && positions[k] < 0;
    assert positions[k] in multiset(sorted);
    var n :| 0 <= n < |sorted| && sorted[n] == positions[k];
    AscendingAt(sorted, 0, n);
  }

  /** The scan's stopping point: the positions not yet reached are past the runes, so all in range are recorded. */
  lemma RecordedAll(buffer: seq<int>, positions: seq<int>, sorted: seq<int>, j: nat)
    requires Ascending(sorted) && multiset(sorted) == multiset(positions) && j <= |sorted|
    requires j < |sorted| ==> sorted[j] >= |buffer|
    ensures Recorded(buffer, sorted[..j]) == map p | p in positions && 0 <= p < |buffer| :: LineSymbol(buffer[..p + 1])
  {
    RecordedIs(buffer, sorted[..j]);
    forall p
      ensures (p in sorted[..j] && 0 <= p < |buffer|) <==> (p in positions && 0 <= p < |buffer|)
    {
      assert p in positions <==> p in multiset(sorted);
      if p in sorted && 0 <= p < |buffer| {
        var k :| 0 <= k < |sorted| && sorted[k] == p;
        if j < |sorted| {
          AscendingAt(sorted, j, k);
        }
        assert sorted[..j][k] == p;
      }
    }
  }

  /** `parseError`: the right-most non-empty token when parsing failed (the parser pointer only serves the message). */
  datatype ParseError = ParseError(max: Token32)

  /** The action rules: each adds one empty token where it stands. */
  const ActionRules: set<PegRule> :=
    {RuleAction0, RuleAction1, RuleAction2, RuleAction3, RuleAction4, RuleAction5,
     RuleAction6, RuleAction7, RuleAction8, RuleAction9, RuleAction10}

  /**
   * The node `Execute` pushes for a segment, with links resolved against
   * `server` and `project`. A bullet point records its capture.
   */
  function TextOf(e: Replay.Emission, server: string, project: string, escape: string -> string): (t: Scan.Text)
    ensures e.Bullet? <==> t.BulletPointNode?
    ensures e.Plain? <==> t.PlainNode?
    ensures e.NewLine? <==> t.NewLineNode?
    ensures (e.Bold? || e.Italic? || e.StrikeThrough?) <==> t.DecoratedNode?
    ensures e.Link? <==> t.LinkNode?
    ensures !e.Link? ==> Markup(t) == Replay.Rendered(e)
    ensures e.Link? ==> t.link == Scan.ResolvedLink(server, project, e.text, escape)
  {
    match e
    case Bullet(text) => Scan.BulletPointNode(text)
    case Plain(text) => Scan.PlainNode(DecoratedTexts.PlainText(text))
    case NewLine => Scan.NewLineNode(DecoratedTexts.NewNewLineText())
    case Bold(text) => Scan.DecoratedNode(DecoratedTexts.NewBoldText(text))
    case Italic(text) => Scan.DecoratedNode(DecoratedTexts.NewItalicText(text))
    case StrikeThrough(text) => Scan.DecoratedNode(DecoratedTexts.NewStrikeThroughText(text))
    case Link(text) => Scan.LinkNode(Scan.ResolvedLink(server, project, text, escape))
  }

  /** The markup of a node other than a link (`String()`; a bullet point's capture). */
  function Markup(t: Scan.Text): string
    requires !t.LinkNode?
  {
    match t
    case PlainNode(p) => p.String()
    case NewLineNode(n) => n.String()
    case DecoratedNode(d) => d.String()
    case BulletPointNode(raw) => raw
  }

  /** The nodes for a list of segments, one each, in order. */
  function TextsOf(es: seq<Replay.Emission>, server: string, project: string, escape: string -> string): (ts: seq<Scan.Text>)
    ensures |ts| == |es|
    ensures forall k :: 0 <= k < |es| ==> ts[k] == TextOf(es[k], server, project, escape)
  {
    seq(|es|, k requires 0 <= k < |es| => TextOf(es[k], server, project, escape))
  }

  lemma TextsOfAppend(a: seq<Replay.Emission>, b: seq<Replay.Emission>, server: string, project: string, escape: string -> string)
    ensures TextsOf(a + b, server, project, escape) == TextsOf(a, server, project, escape) + TextsOf(b, server, project, escape)
  {
  }

  /** The nodes for one token's segments: none, or the node for its one segment. */
  lemma TextsOfEmit(rule: PegRule, text: string, server: string, project: string, escape: string -> string)
    ensures Replay.Emitting(rule) ==> |Replay.Emit(rule, text)| == 1
    ensures TextsOf(Replay.Emit(rule, text), server, project, escape)
            == if Replay.Emitting(rule) then [TextOf(Replay.Emit(rule, text)[0], server, project, escape)] else []
  {
    Replay.EmitOne(rule, text);
  }

  /** One step of `Execute`'s loop: the nodes for one more token are those of the token's own segment, after the others. */
  lemma ReplayStep(tokens: seq<Token32>, i: nat, s: string, server: string, project: string, escape: string -> string)
    requires i < |tokens|
    ensures TextsOf(Replay.Emitted(tokens[..i + 1], s, ""), server, project, escape)
            == TextsOf(Replay.Emitted(tokens[..i], s, ""), server, project, escape)
               + TextsOf(Replay.Emit(tokens[i].rule, Replay.LastText(tokens[..i], s, "")), server, project, escape)
    ensures Replay.LastText(tokens[..i + 1], s, "") == Replay.NextText(tokens[i], s, Replay.LastText(tokens[..i], s, ""))
  {
    var prefix, tok := tokens[..i], tokens[i];
    assert tokens[..i + 1] == prefix + [tok];
    Replay.EmittedSnoc(prefix, tok, s, "");
    var before := Replay.Emitted(prefix, s, "");
    var one := Replay.Emit(tok.rule, Replay.LastText(prefix, s, ""));
    TextsOfAppend(before, one, server, project, escape);
  }

  /** `Parser`, with the variables its rule closures share as fields. */
  class Parser {
    const s: Scan.Scan
    const Buffer: string
    var buffer: seq<int>
    var position: nat
    var tokenIndex: nat
    var max: Token32
    /** The token array the rule closures write to. */
    const tree: Tokens32
    /** The parser's own embedded `tokens32`, set by `parse`. */
    var tokens32: Tokens32
    /** The tokens added so far and not undone by backtracking. */
    ghost var written: seq<Token32>

    /** The runes with the sentinel after them, and a position that never passes the sentinel. */
    ghost predicate BufferValid()
      reads this
    {
      buffer == Runes(Buffer) + [End] && position <= |Buffer|
    }

    ghost predicate Valid()
      reads this, tree
    {
      && BufferValid()
      && 0 < |tree.tree| && tokenIndex <= |tree.tree|
      && tokenIndex == |written| && tree.tree[..tokenIndex] == written
      && max.begin <= max.end <= |Buffer|
    }

    /**
     * A rule call from `p0` with tokens `w0` ended as the grammar outcome `m`
     * says: `ok` exactly when `m` matched; then at `m`'s end with `m`'s tokens
     * appended, otherwise back at `p0` with the tokens as they were.
     */
    ghost predicate Follows(m: Match, p0: nat, w0: seq<Token32>, ok: bool)
      reads this
    {
      && ok == m.Matched?
      && (ok ==> position == m.end && written == w0 + m.toks)
      && (!ok ==> position == p0 && written == w0)
    }

    /** `max.end` has not decreased, and stays put for a call at the sentinel, which consumes nothing. */
    ghost predicate MaxFrom(m0: Token32, p0: nat)
      reads this
    {
      m0.end <= max.end && (p0 == |Buffer| ==> max == m0)
    }

    /** `Init` and the `reset` it calls, on a parser built with field `Buffer`. */
    constructor Init(Buffer: string)
      ensures Valid() && this.Buffer == Buffer
      ensures position == 0 && tokenIndex == 0 && max == ZeroToken
      ensures |tree.tree| == InitialTokens && written == []
      ensures fresh(s) && s.texts == [] && fresh(tree)
    {
      this.Buffer := Buffer;
      s := new Scan.Scan();
      tree := new Tokens32.Make(InitialTokens);
      tokens32 := new Tokens32.Make(0);
      written := [];
      new;
      Reset();
    }

    /** `reset`: the runes of `Buffer` with the sentinel appended, position and token index 0, `max` the zero token. */
    method Reset()
      modifies this`max, this`position, this`tokenIndex, this`buffer
      ensures BufferValid()
      ensures buffer == Runes(Buffer) + [End]
      ensures max == ZeroToken && position == 0 && tokenIndex == 0
    {
      max := ZeroToken;
      position, tokenIndex := 0, 0;
      buffer := Runes(Buffer);
      if |buffer| == 0 || buffer[|buffer| - 1] != End {
        buffer := buffer + [End];
      }
    }

    /** `buffer[position] == c`: at the sentinel no rune test succeeds. */
    function RuneIs(c: char): (b: bool)
      reads this
      requires BufferValid()
      ensures b <==> position < |Buffer| && Buffer[position] == c
    {
      buffer[position] == c as int
    }

    /** `matchDot`: consumes one rune unless at the sentinel. */
    method MatchDot() returns (ok: bool)
      requires BufferValid()
      modifies this`position
      ensures BufferValid()
      ensures ok <==> old(position) < |Buffer|
      ensures position == if ok then old(position) + 1 else old(position)
    {
      if buffer[position] != End {
        position := position + 1;
        return true;
      }
      return false;
    }

    /**
     * `add`: appends the token `rule` over `[begin, position)` and takes it as
     * the new `max` when it is non-empty and ends right of the old one.
     */
    method Add(rule: PegRule, begin: nat)
      requires Valid() && begin <= position
      modifies this`tokenIndex, this`written, this`max, tree
      ensures Valid()
      ensures tokenIndex == old(tokenIndex) + 1
      ensures written == old(written) + [Token32(rule, begin, position)]
      ensures max == if begin != position && position > old(max.end) then Token32(rule, begin, position) else old(max)
      ensures old(|tree.tree|) <= |tree.tree|
    {
      ghost var before := tree.tree;
      GrownKeeps(before, tokenIndex);
      tree.Add(rule, begin, position, tokenIndex);
      Backtracked(tree.tree, written, tree.tree[tokenIndex..]);
      assert tree.tree[..tokenIndex + 1] == written + [tree.tree[tokenIndex]];
      tokenIndex := tokenIndex + 1;
      written := written + [Token32(rule, begin, position)];
      if begin != position && position > max.end {
        max := Token32(rule, begin, position);
      }
    }

    /**
     * `position, tokenIndex = position0, tokenIndex0` after a failed sequence:
     * the tokens written since are dropped (the slice keeps them as garbage).
     */
    method Restore(p0: nat, t0: nat, ghost w0: seq<Token32>)
      requires Valid() && p0 <= |Buffer| && t0 == |w0| <= |written| && written[..t0] == w0
      modifies this`position, this`tokenIndex, this`written
      ensures Valid() && position == p0 && tokenIndex == t0 && written == w0
    {
      assert written == w0 + written[t0..];
      Backtracked(tree.tree, w0, written[t0..]);
      position, tokenIndex := p0, t0;
      written := w0;
    }

    /** The closures `Action0`..`Action10`: each adds its empty token and succeeds. */
    method Action(rule: PegRule) returns (ok: bool)
      requires Valid() && rule in ActionRules
      modifies this`tokenIndex, this`written, this`max, tree
      ensures Valid() && ok
      ensures written == old(written) + [Token32(rule, position, position)]
      ensures max == old(max)
      ensures old(|tree.tree|) <= |tree.tree|
    {
      Add(rule, position);
      return true;
    }

    /** The loop of `plainTextLine`: runes up to a bracket, a line break or the sentinel. */
    method LineRunes()
      requires BufferValid()
      modifies this`position
      ensures BufferValid()
      ensures position == Span(Buffer, old(position), Except(LineStops))
    {
      ghost var p0 := position;
      while true
        invariant BufferValid() && p0 <= position <= |Buffer|
        invariant forall k :: p0 <= k < position ==> Buffer[k] !in LineStops
        decreases |Buffer| - position
      {
        if RuneIs(']') || RuneIs('[') || RuneIs('\n') {
          break;
        }
        var dot := MatchDot();
        if !dot {
          break;
        }
      }
      SpanAt(Buffer, p0, position, Except(LineStops));
    }

    /** `plainTextLine`: at least one rune, up to a bracket, a line break or the sentinel. */
    method PlainTextLine() returns (ok: bool)
      requires Valid()
      modifies this`position, this`tokenIndex, this`written, this`max, tree
      ensures Valid()
      ensures Follows(Grammar.PlainTextLine(Buffer, old(position)), old(position), old(written), ok)
      ensures MaxFrom(old(max), old(position))
      ensures old(|tree.tree|) <= |tree.tree|
    {
      var p0 := position;
      if RuneIs(']') || RuneIs('[') || RuneIs('\n') {
        return false;
      }
      var dot := MatchDot();
      if !dot {
        return false;
      }
      LineRunes();
      Add(RulePlainTextLine, p0);
      return true;
    }

    /** `symbol ' ' <plainTextLine> action`, an alternative of `innerDecoratedText`. */
    method DecoratedAlt(symbol: char, action: PegRule) returns (ok: bool)
      requires action in {RuleAction7, RuleAction8, RuleAction9}
      requires Valid()
      modifies this`position, this`tokenIndex, this`written, this`max, tree
      ensures Valid()
      ensures Follows(Grammar.DecoratedAlt(Buffer, old(position), symbol, action), old(position), old(written), ok)
      ensures MaxFrom(old(max), old(position))
      ensures old(|tree.tree|) <= |tree.tree|
    {
      var p0, t0 := position, tokenIndex;
      if !RuneIs(symbol) {
        return false;
      }
      position := position + 1;
      if !RuneIs(' ') {
        position := p0;
        return false;
      }
      position := position + 1;
      var p55 := position;
      ghost var w0 := written;
      ok := PlainTextLine();
      if !ok {
        position, tokenIndex := p0, t0;
        return false;
      }
      Add(RulePegText, p55);
      ok := Action(action);
      Trailing(w0, Grammar.PlainTextLine(Buffer, p55).toks, Token32(RulePegText, p55, position), Token32(action, position, position));
    }

    /** `<plainTextLine> Action10`, the link alternative of `innerDecoratedText`. */
    method LinkAlt() returns (ok: bool)
      requires Valid()
      modifies this`position, this`tokenIndex, this`written, this`max, tree
      ensures Valid()
      ensures Follows(Grammar.LinkAlt(Buffer, old(position)), old(position), old(written), ok)
      ensures MaxFrom(old(max), old(position))
      ensures old(|tree.tree|) <= |tree.tree|
    {
      var p60 := position;
      ghost var w0 := written;
      ok := PlainTextLine();
      if !ok {
        return false;
      }
      Add(RulePegText, p60);
      ok := Action(RuleAction10);
      Trailing(w0, Grammar.PlainTextLine(Buffer, p60).toks, Token32(RulePegText, p60, position), Token32(RuleAction10, position, position));
    }

    /** `innerDecoratedText`: the four alternatives in order, then the rule's own token. */
    method InnerDecoratedText() returns (ok: bool)
      requires Valid()
      modifies this`position, this`tokenIndex, this`written, this`max, tree
      ensures Valid()
      ensures Follows(Grammar.InnerDecoratedText(Buffer, old(position)), old(position), old(written), ok)
      ensures MaxFrom(old(max), old(position))
      ensures old(|tree.tree|) <= |tree.tree|
    {
      var p52 := position;
      ghost var w0 := written;
      ghost var alt := Or(Grammar.DecoratedAlt(Buffer, p52, '*', RuleAction7),
                       Or(Grammar.DecoratedAlt(Buffer, p52, '/', RuleAction8),
                       Or(Grammar.DecoratedAlt(Buffer, p52, '-', RuleAction9),
                          Grammar.LinkAlt(Buffer, p52))));
      ok := DecoratedAlt('*', RuleAction7);
      if !ok {
        ok := DecoratedAlt('/', RuleAction8);
      }
      if !ok {
        ok := DecoratedAlt('-', RuleAction9);
      }
      if !ok {
        ok := LinkAlt();
      }
      if !ok {
        return false;
      }
      assert written == w0 + alt.toks;
      Add(RuleInnerDecoratedText, p52);
      Assoc(w0, alt.toks, [Token32(RuleInnerDecoratedText, p52, position)]);
    }

    /** `'[' innerDecoratedText ']'`, the first alternative of `bracketText`. */
    method BracketDecorated() returns (ok: bool)
      requires Valid()
      modifies this`position, this`tokenIndex, this`written, this`max, tree
      ensures Valid()
      ensures Follows(Grammar.BracketDecorated(Buffer, old(position)), old(position), old(written), ok)
      ensures MaxFrom(old(max), old(position))
      ensures old(|tree.tree|) <= |tree.tree|
    {
      var p0, t0 := position, tokenIndex;
      ghost var w0 := written;
      if !RuneIs('[') {
        return false;
      }
      position := position + 1;
      ok := InnerDecoratedText();
      if !ok {
        position := p0;
        return false;
      }
      if !RuneIs(']') {
        Restore(p0, t0, w0);
        return false;
      }
      position := position + 1;
    }

    /** `<('[' plainTextLine)> Action6`, the second alternative of `bracketText`. */
    method BracketPlain() returns (ok: bool)
      requires Valid()
      modifies this`position, this`tokenIndex, this`written, this`max, tree
      ensures Valid()
      ensures Follows(Grammar.BracketPlain(Buffer, old(position)), old(position), old(written), ok)
      ensures MaxFrom(old(max), old(position))
      ensures old(|tree.tree|) <= |tree.tree|
    {
      var p50, t0 := position, tokenIndex;
      if !RuneIs('[') {
        return false;
      }
      position := position + 1;
      ghost var w0, q := written, position;
      ok := PlainTextLine();
      if !ok {
        position := p50;
        return false;
      }
      Add(RulePegText, p50);
      ok := Action(RuleAction6);
      Trailing(w0, Grammar.PlainTextLine(Buffer, q).toks, Token32(RulePegText, p50, position), Token32(RuleAction6, position, position));
    }

    /** `bracketText` */
    method BracketText() returns (ok: bool)
      requires Valid()
      modifies this`position, this`tokenIndex, this`written, this`max, tree
      ensures Valid()
      ensures Follows(Grammar.BracketText(Buffer, old(position)), old(position), old(written), ok)
      ensures MaxFrom(old(max), old(position))
      ensures old(|tree.tree|) <= |tree.tree|
    {
      var p47 := position;
      ok := BracketDecorated();
      if !ok {
        ok := BracketPlain();
      }
      if !ok {
        return false;
      }
      Add(RuleBracketText, p47);
    }

    /** The loop of `' '+`: spaces up to the first other rune or the sentinel. */
    method Spaces()
      requires BufferValid()
      modifies this`position
      ensures BufferValid()
      ensures position == Span(Buffer, old(position), Only(' '))
    {
      ghost var p0 := position;
      while RuneIs(' ')
        invariant BufferValid() && p0 <= position <= |Buffer|
        invariant forall k :: p0 <= k < position ==> Buffer[k] == ' '
        decreases |Buffer| - position
      {
        position := position + 1;
      }
      SpanAt(Buffer, p0, position, Only(' '));
    }

    /** `<(' '+ plainTextLine)> Action2`, the bullet-point alternative of `literal`. */
    method LiteralBullet() returns (ok: bool)
      requires Valid()
      modifies this`position, this`tokenIndex, this`written, this`max, tree
      ensures Valid()
      ensures Follows(Grammar.LiteralBullet(Buffer, old(position)), old(position), old(written), ok)
      ensures MaxFrom(old(max), old(position))
      ensures old(|tree.tree|) <= |tree.tree|
    {
      var p23 := position;
      if !RuneIs(' ') {
        return false;
      }
      position := position + 1;
      Spaces();
      ghost var w0, q := written, position;
      ok := PlainTextLine();
      if !ok {
        position := p23;
        return false;
      }
      Add(RulePegText, p23);
      ok := Action(RuleAction2);
      Trailing(w0, Grammar.PlainTextLine(Buffer, q).toks, Token32(RulePegText, p23, position), Token32(RuleAction2, position, position));
    }

    /** The loop of a plain-text alternative of `literal`: runes up to `stop`, a line break or the sentinel. */
    method RunRunes(stop: char)
      requires BufferValid()
      modifies this`position
      ensures BufferValid()
      ensures position == Span(Buffer, old(position), Except({stop, '\n'}))
    {
      ghost var p0 := position;
      while true
        invariant BufferValid() && p0 <= position <= |Buffer|
        invariant forall k :: p0 <= k < position ==> Buffer[k] !in {stop, '\n'}
        decreases |Buffer| - position
      {
        if RuneIs(stop) || RuneIs('\n') {
          break;
        }
        var dot := MatchDot();
        if !dot {
          break;
        }
      }
      SpanAt(Buffer, p0, position, Except({stop, '\n'}));
    }

    /** `<(!(stop / '\n') .)+> action`, the two plain-text alternatives of `literal`. */
    method LiteralRun(stop: char, action: PegRule) returns (ok: bool)
      requires action in {RuleAction3, RuleAction4}
      requires Valid()
      modifies this`position, this`tokenIndex, this`written, this`max, tree
      ensures Valid()
      ensures Follows(Grammar.LiteralRun(Buffer, old(position), {stop, '\n'}, action), old(position), old(written), ok)
      ensures MaxFrom(old(max), old(position))
      ensures old(|tree.tree|) <= |tree.tree|
    {
      var p0 := position;
      if RuneIs(stop) || RuneIs('\n') {
        return false;
      }
      var dot := MatchDot();
      if !dot {
        return false;
      }
      RunRunes(stop);
      Add(RulePegText, p0);
      ok := Action(action);
    }

    /** `'\n' Action5`, the line-break alternative of `literal`. */
    method LiteralNewLine() returns (ok: bool)
      requires Valid()
      modifies this`position, this`tokenIndex, this`written, this`max, tree
      ensures Valid()
      ensures Follows(Grammar.LiteralNewLine(Buffer, old(position)), old(position), old(written), ok)
      ensures MaxFrom(old(max), old(position))
      ensures old(|tree.tree|) <= |tree.tree|
    {
      if !RuneIs('\n') {
        return false;
      }
      position := position + 1;
      ok := Action(RuleAction5);
    }

    /** `literal`: the five alternatives in order, then the rule's own token. */
    method Literal() returns (ok: bool)
      requires Valid()
      modifies this`position, this`tokenIndex, this`written, this`max, tree
      ensures Valid()
      ensures Follows(Grammar.Literal(Buffer, old(position)), old(position), old(written), ok)
      ensures MaxFrom(old(max), old(position))
      ensures old(|tree.tree|) <= |tree.tree|
    {
      var p19 := position;
      ghost var w0 := written;
      ghost var alt := Or(Grammar.BracketText(Buffer, p19),
                       Or(Grammar.LiteralBullet(Buffer, p19),
                       Or(Grammar.LiteralRun(Buffer, p19, OpenStops, RuleAction3),
                       Or(Grammar.LiteralRun(Buffer, p19, CloseStops, RuleAction4),
                          Grammar.LiteralNewLine(Buffer, p19)))));
      ok := BracketText();
      if !ok {
        ok := LiteralBullet();
      }
      if !ok {
        ok := LiteralRun('[', RuleAction3);
      }
      if !ok {
        ok := LiteralRun(']', RuleAction4);
      }
      if !ok {
        ok := LiteralNewLine();
      }
      if !ok {
        return false;
      }
      assert written == w0 + alt.toks;
      Add(RuleLiteral, p19);
      Assoc(w0, alt.toks, [Token32(RuleLiteral, p19, position)]);
    }

    /** `literal*`: literals until one fails, which is at the sentinel. */
    method LiteralsLoop()
      requires Valid()
      modifies this`position, this`tokenIndex, this`written, this`max, tree
      ensures Valid()
      ensures Follows(Grammar.Literals(Buffer, old(position)), old(position), old(written), true)
      ensures old(max.end) <= max.end && old(|tree.tree|) <= |tree.tree|
    {
      ghost var p0, w0, m0, n0 := position, written, max, |tree.tree|;
      ghost var done: seq<Token32> := [];
      while true
        invariant Valid() && p0 <= position
        invariant written == w0 + done
        invariant Literals(Buffer, p0).toks == done + Literals(Buffer, position).toks
        invariant m0.end <= max.end && n0 <= |tree.tree|
        decreases |Buffer| - position
      {
        ghost var p17 := position;
        var more := Literal();
        if !more {
          break;
        }
        ghost var l := Grammar.Literal(Buffer, p17).toks;
        LiteralsUnfold(Buffer, p17);
        Assoc(w0, done, l);
        Assoc(done, l, Literals(Buffer, position).toks);
        done := done + l;
      }
      LiteralsUnfold(Buffer, position);
      assert done + [] == done;
    }

    /** `expression <- <literal+>`: one literal, then `literal*`, then the rule's own token. */
    method Expression() returns (ok: bool)
      requires Valid()
      modifies this`position, this`tokenIndex, this`written, this`max, tree
      ensures Valid()
      ensures Follows(Grammar.Expression(Buffer, old(position)), old(position), old(written), ok)
      ensures MaxFrom(old(max), old(position))
      ensures old(|tree.tree|) <= |tree.tree|
    {
      var p15 := position;
      ghost var w0 := written;
      ok := Literal();
      if !ok {
        return false;
      }
      ghost var first := Grammar.Literal(Buffer, p15).toks;
      LiteralsLoop();
      ghost var rest := Grammar.Literals(Buffer, Grammar.Literal(Buffer, p15).end).toks;
      Assoc(w0, first, rest);
      Add(RuleExpression, p15);
      Assoc(w0, first + rest, [Token32(RuleExpression, p15, position)]);
    }

    /** `EOT <- <!.>`: the token only where `.` does not match, that is at the sentinel. */
    method EOT() returns (ok: bool)
      requires Valid()
      modifies this`position, this`tokenIndex, this`written, this`max, tree
      ensures Valid()
      ensures Follows(Grammar.EOT(Buffer, old(position)), old(position), old(written), ok)
      ensures MaxFrom(old(max), old(position))
      ensures old(|tree.tree|) <= |tree.tree|
    {
      var p11 := position;
      var dot := MatchDot();
      if dot {
        position := p11;
        return false;
      }
      Add(RuleEOT, p11);
      return true;
    }

    /** The loop of `.+`: every rune up to the sentinel. */
    method Rest()
      requires BufferValid()
      modifies this`position
      ensures BufferValid() && position == |Buffer|
    {
      var dot := true;
      while dot
        invariant BufferValid()
        invariant !dot ==> position == |Buffer|
        decreases |Buffer| - position, dot
      {
        dot := MatchDot();
      }
    }

    /** `<.+>` in the second and third alternatives of `root`: the rest of the runes, at least one. */
    method CaptureRest() returns (ok: bool)
      requires Valid()
      modifies this`position, this`tokenIndex, this`written, this`max, tree
      ensures Valid()
      ensures Follows(Grammar.CaptureRest(Buffer, old(position)), old(position), old(written), ok)
      ensures MaxFrom(old(max), old(position))
      ensures old(|tree.tree|) <= |tree.tree|
    {
      var p5 := position;
      var dot := MatchDot();
      if !dot {
        return false;
      }
      Rest();
      Add(RulePegText, p5);
      return true;
    }

    /** `expression EOT`, the first alternative of `root`. */
    method RootComplete() returns (ok: bool)
      requires Valid()
      modifies this`position, this`tokenIndex, this`written, this`max, tree
      ensures Valid()
      ensures Follows(Grammar.RootComplete(Buffer, old(position)), old(position), old(written), ok)
      ensures MaxFrom(old(max), old(position))
      ensures old(|tree.tree|) <= |tree.tree|
    {
      var p2, t2 := position, tokenIndex;
      ghost var w0 := written;
      ok := Expression();
      if !ok {
        return false;
      }
      ghost var e := Grammar.Expression(Buffer, p2);
      ok := EOT();
      if !ok {
        // An expression runs to the sentinel, where `EOT` always matches: the
        // restore to `position2, tokenIndex2` here is unreachable.
        assert false;
      }
      assert written == w0 + e.toks + Grammar.EOT(Buffer, e.end).toks;
    }

    /** `expression <.+> Action0 EOT`, the second alternative of `root`. */
    method RootTrailing() returns (ok: bool)
      requires Valid()
      modifies this`position, this`tokenIndex, this`written, this`max, tree
      ensures Valid()
      ensures Follows(Grammar.RootTrailing(Buffer, old(position)), old(position), old(written), ok)
      ensures MaxFrom(old(max), old(position))
      ensures old(|tree.tree|) <= |tree.tree|
    {
      var p2, t2 := position, tokenIndex;
      ghost var w0 := written;
      ok := Expression();
      if ok {
        ok := CaptureRest();
        if ok {
          // An expression runs to the sentinel, where `<.+>` never matches:
          // `Action0 EOT` is unreachable.
          assert false;
        }
      }
      if !ok {
        Restore(p2, t2, w0);
        return false;
      }
    }

    /** `<.+> Action1 EOT`, the third alternative of `root`. */
    method RootUnparsed() returns (ok: bool)
      requires Valid()
      modifies this`position, this`tokenIndex, this`written, this`max, tree
      ensures Valid()
      ensures Follows(Grammar.RootUnparsed(Buffer, old(position)), old(position), old(written), ok)
      ensures MaxFrom(old(max), old(position))
      ensures old(|tree.tree|) <= |tree.tree|
    {
      var p8, t8 := position, tokenIndex;
      ghost var w0 := written;
      ok := CaptureRest();
      if ok {
        ok := Action(RuleAction1);
        ok := EOT();
      }
      if !ok {
        Restore(p8, t8, w0);
        return false;
      }
      assert written == w0 + Grammar.RootUnparsed(Buffer, p8).toks;
    }

    /** `root`: the three alternatives in order, then the rule's own token. */
    method Root() returns (ok: bool)
      requires Valid()
      modifies this`position, this`tokenIndex, this`written, this`max, tree
      ensures Valid()
      ensures Follows(Grammar.Root(Buffer, old(position)), old(position), old(written), ok)
      ensures MaxFrom(old(max), old(position))
      ensures old(|tree.tree|) <= |tree.tree|
    {
      var p1 := position;
      ghost var w0 := written;
      ghost var alt := Or(Grammar.RootComplete(Buffer, p1),
                       Or(Grammar.RootTrailing(Buffer, p1), Grammar.RootUnparsed(Buffer, p1)));
      ok := RootComplete();
      if !ok {
        ok := RootTrailing();
      }
      if !ok {
        ok := RootUnparsed();
      }
      if !ok {
        return false;
      }
      assert written == w0 + alt.toks;
      Add(RuleRoot, p1);
      Assoc(w0, alt.toks, [Token32(RuleRoot, p1, position)]);
    }

    /**
     * The `parse` closure with the default rule `root`: runs it, makes the
     * parser's own token slice a copy of the closures' one, and on a match
     * trims it to the tokens added; otherwise reports `max`.
     */
    method Parse() returns (err: Option<ParseError>)
      requires Valid()
      modifies this`position, this`tokenIndex, this`written, this`max, tree, this`tokens32
      ensures Valid() && fresh(tokens32)
      ensures err.None? <==> old(position) < |Buffer|
      ensures err.None? ==> tokens32.tree == old(written) + Grammar.Root(Buffer, old(position)).toks
      ensures err.Some? ==> err.value == ParseError(old(max)) && tokens32.tree == tree.tree
    {
      var matches := Root();
      tokens32 := new Tokens32.Copy(tree);
      if matches {
        tokens32.Trim(tokenIndex);
        return None;
      }
      return Some(ParseError(max));
    }

    /**
     * `Execute`: replays the parser's tokens. A `PegText` token sets the
     * capture to its runes, and each of `Action2`..`Action10` pushes the node
     * for the current capture; `Action0`/`Action1` only print.
     */
    method Execute(escape: string -> string)
      requires Within(tokens32.tree, 0, |Buffer|)
      modifies s`texts
      ensures s.texts == old(s.texts) + TextsOf(Replay.Emitted(tokens32.tree, Buffer, ""), s.server, s.project, escape)
    {
      var tokens := tokens32.tree;
      var text := "";
      for i := 0 to |tokens|
        invariant text == Replay.LastText(tokens[..i], Buffer, "")
        invariant s.texts == old(s.texts) + TextsOf(Replay.Emitted(tokens[..i], Buffer, ""), s.server, s.project, escape)
      {
        var token := tokens[i];
        assert 0 <= token.begin <= token.end <= |Buffer|;
        ReplayStep(tokens, i, Buffer, s.server, s.project, escape);
        ghost var done := s.texts;
        ghost var pushed := TextsOf(Replay.Emit(token.rule, text), s.server, s.project, escape);
        TextsOfEmit(token.rule, text, s.server, s.project, escape);
        match token.rule {
          case RulePegText =>
            text := Buffer[token.begin..token.end];
          case RuleAction2 =>
            s.Push(Scan.BulletPointNode(text));
          case RuleAction3 =>
            s.Push(Scan.PlainNode(DecoratedTexts.PlainText(text)));
          case RuleAction4 =>
            s.Push(Scan.PlainNode(DecoratedTexts.PlainText(text)));
          case RuleAction5 =>
            s.Push(Scan.NewLineNode(DecoratedTexts.NewNewLineText()));
          case RuleAction6 =>
            s.Push(Scan.PlainNode(DecoratedTexts.PlainText(text)));
          case RuleAction7 =>
            s.Push(Scan.DecoratedNode(DecoratedTexts.NewBoldText(text)));
          case RuleAction8 =>
            s.Push(Scan.DecoratedNode(DecoratedTexts.NewItalicText(text)));
          case RuleAction9 =>
            s.Push(Scan.DecoratedNode(DecoratedTexts.NewStrikeThroughText(text)));
          case RuleAction10 =>
            s.PushLinkFromRawText(text, escape);
          case _ =>
        }
        assert s.texts == done + pushed;
        Assoc(old(s.texts), TextsOf(Replay.Emitted(tokens[..i], Buffer, ""), s.server, s.project, escape), pushed);
      }
      assert tokens[..|tokens|] == tokens;
    }
  }
}
