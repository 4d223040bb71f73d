/**
 * The parts of Go's `strings` package that the scrapbox code relies on, over
 * strings as sequences of runes: `Split` and `Join` with a one-rune separator,
 * `Contains`, and `Replace(s, old, "", 1)` with a one-rune `old`.
 */
module GoStrings {

  /** `strings.Split(s, string(sep))`: the pieces between separators, empty pieces kept. */
  function Split(s: string, sep: char): (r: seq<string>)
    ensures |r| >= 1
    ensures forall k :: 0 <= k < |r| ==> sep !in r[k]
    ensures |r| == 1 <==> sep !in s
    decreases |s|
  {
    if |s| == 0 then [""]
    else
      var rest := Split(s[1..], sep);
      if s[0] == sep then [""] + rest
      else [[s[0]] + rest[0]] + rest[1..]
  }

  /** `strings.Join(parts, string(sep))`. */
  function Join(parts: seq<string>, sep: char): string
    decreases |parts|
  {
    if |parts| == 0 then ""
    else if |parts| == 1 then parts[0]
    else parts[0] + [sep] + Join(parts[1..], sep)
  }

  /** Joining the pieces of a split with the same separator gives back the string. */
  lemma {:induction false} JoinSplit(s: string, sep: char)
    ensures Join(Split(s, sep), sep) == s
    decreases |s|
  {
    if |s| > 0 {
      var rest := Split(s[1..], sep);
      JoinSplit(s[1..], sep);
      if s[0] == sep {
        assert ([""] + rest)[1..] == rest;
      } else {
        var r := Split(s, sep);
        assert r == [[s[0]] + rest[0]] + rest[1..];
        if |rest| > 1 {
          assert r[1..] == rest[1..];
        }
      }
      assert s == [s[0]] + s[1..];
    }
  }

  /** A string without the separator is a single piece. */
  lemma {:induction false} SplitNoSeparator(s: string, sep: char)
    requires sep !in s
    ensures Split(s, sep) == [s]
    decreases |s|
  {
    if |s| > 0 {
      SplitNoSeparator(s[1..], sep);
      assert [s[0]] + s[1..] == s;
    }
  }

  /** A separator in front starts an empty first piece. */
  lemma SplitSeparatorFirst(sep: char, t: string)
    ensures Split([sep] + t, sep) == [""] + Split(t, sep)
  {
    assert ([sep] + t)[1..] == t;
  }

  /** Any other rune in front joins the first piece. */
  lemma SplitRuneFirst(c: char, sep: char, t: string)
    requires c != sep
    ensures Split([c] + t, sep) == [[c] + Split(t, sep)[0]] + Split(t, sep)[1..]
  {
    assert ([c] + t)[1..] == t;
  }

  /** A rune other than the separator in front of both the whole and its head joins both first pieces. */
  lemma SplitConcatRuneStep(h: char, t: string, sep: char, tail: seq<string>, x: string)
    requires h != sep
    requires Split(x, sep) == Split(t, sep) + tail
    ensures Split([h] + x, sep) == Split([h] + t, sep) + tail
  {
    var a, b := Split(t, sep), Split(x, sep);
    var p := [h] + a[0];
    assert b[0] == a[0];
    assert b[1..] == a[1..] + tail;
    SplitRuneFirst(h, sep, x);
    SplitRuneFirst(h, sep, t);
    assert [p] + (a[1..] + tail) == [p] + a[1..] + tail;
  }

  /** One rune more in front of both the whole and its head keeps the split of the whole the head's split and the tail's. */
  lemma SplitConcatStep(h: char, t: string, sep: char, tail: seq<string>, x: string)
    requires Split(x, sep) == Split(t, sep) + tail
    ensures Split([h] + x, sep) == Split([h] + t, sep) + tail
  {
    if h == sep {
      SplitSeparatorFirst(sep, x);
      SplitSeparatorFirst(sep, t);
    } else {
      SplitConcatRuneStep(h, t, sep, tail, x);
    }
  }

  /** Splitting at a separator splits each side on its own. */
  lemma {:induction false} SplitConcat(head: string, sep: char, tail: string)
    ensures Split(head + [sep] + tail, sep) == Split(head, sep) + Split(tail, sep)
    decreases |head|
  {
    if |head| == 0 {
      assert head + [sep] + tail == [sep] + tail;
      SplitSeparatorFirst(sep, tail);
    } else {
      var h, t := head[0], head[1..];
      assert head == [h] + t;
      assert head + [sep] + tail == [h] + (t + [sep] + tail);
      SplitConcat(t, sep, tail);
      SplitConcatStep(h, t, sep, Split(tail, sep), t + [sep] + tail);
    }
  }

  /** A separator-free head and a separator split off the first piece. */
  lemma SplitAppend(head: string, sep: char, tail: string)
    requires sep !in head
    ensures Split(head + [sep] + tail, sep) == [head] + Split(tail, sep)
  {
    SplitConcat(head, sep, tail);
    SplitNoSeparator(head, sep);
  }

  /** Join over all but the last piece, then the separator and the last piece. */
  lemma {:induction false} JoinSnoc(parts: seq<string>, sep: char)
    requires |parts| >= 2
    ensures Join(parts, sep) == Join(parts[..|parts| - 1], sep) + [sep] + parts[|parts| - 1]
    decreases |parts|
  {
    if |parts| > 2 {
      JoinSnoc(parts[1..], sep);
      assert parts[1..][..|parts| - 2] == parts[..|parts| - 1][1..];
    } else {
      assert parts[..1] == [parts[0]];
    }
  }

  /** Join of a first piece and the rest. */
  lemma JoinCons(parts: seq<string>, sep: char)
    requires |parts| >= 2
    ensures Join(parts, sep) == parts[0] + [sep] + Join(parts[1..], sep)
  {
  }

  /** `strings.Contains(s, sub)`: `sub` occurs somewhere in `s`. */
  predicate Contains(s: string, sub: string)
    decreases |s|
  {
    |sub| <= |s| && (s[..|sub|] == sub || (|s| > 0 && Contains(s[1..], sub)))
  }

  /** `sub` occurs in `s` starting at index `k`. */
  predicate OccursAt(s: string, sub: string, k: nat)
  {
    k + |sub| <= |s| && s[k..k + |sub|] == sub
  }

  /** The recursive definition agrees with "some slice of `s` equals `sub`". */
  lemma {:induction false} ContainsIff(s: string, sub: string)
    ensures Contains(s, sub) <==> exists k: nat :: OccursAt(s, sub, k)
    decreases |s|
  {
    if |sub| <= |s| && |s| > 0 {
      ContainsIff(s[1..], sub);
      if s[..|sub|] == sub {
        assert OccursAt(s, sub, 0);
      }
      if Contains(s[1..], sub) {
        var k: nat :| OccursAt(s[1..], sub, k);
        assert s[k + 1..k + 1 + |sub|] == s[1..][k..k + |sub|];
        assert OccursAt(s, sub, k + 1);
      }
      if exists k: nat :: OccursAt(s, sub, k) {
        var k: nat :| OccursAt(s, sub, k);
        if k > 0 {
          assert s[1..][k - 1..k - 1 + |sub|] == s[k..k + |sub|];
          assert OccursAt(s[1..], sub, k - 1);
        } else {
          assert s[..|sub|] == s[0..0 + |sub|];
        }
      }
    } else if |sub| <= |s| {
      assert OccursAt(s, sub, 0);
    }
  }

  /** The index of the first occurrence of `c` in `s`. */
  function IndexOf(s: string, c: char): (k: nat)
    requires c in s
    ensures k < |s| && s[k] == c && c !in s[..k]
    decreases |s|
  {
    if s[0] == c then 0 else 1 + IndexOf(s[1..], c)
  }

  /** `strings.Replace(s, string(c), "", 1)`: removes the first occurrence of `c`, if any. */
  function RemoveFirst(s: string, c: char): (r: string)
    ensures c !in s ==> r == s
    ensures c in s ==> r == s[..IndexOf(s, c)] + s[IndexOf(s, c) + 1..]
    decreases |s|
  {
    if |s| == 0 then s
    else if s[0] == c then s[1..]
    else
      var rest := RemoveFirst(s[1..], c);
      assert s == [s[0]] + s[1..];
      assert c in s ==>
        var k := IndexOf(s[1..], c);
        IndexOf(s, c) == k + 1 && s[..k + 1] == [s[0]] + s[1..][..k] && s[k + 2..] == s[1..][k + 1..];
      [s[0]] + rest
  }
}
