/** What patterns mean: every list of tokens has a pattern text, and what it matches. */
module PatternLaws {
  import opened Options
  import opened PatternSpec

  // ---------- tokens written as text ----------

  /** A pattern text for a token, with every character quoted. */
  function Show(t: Token): Text {
    match t
    case Literal(c) => [BACKSLASH, c]
    case Any => [QUERY]
    case Star => [STAR]
    case Bracket(negate, ranges) => [OPEN] + (if negate then [BANG] else []) + ShowRanges(ranges) + [CLOSE]
    case Broken => [OPEN]
  }

  function ShowRange(r: Range): Text {
    [BACKSLASH, r.lo, DASH, BACKSLASH, r.hi]
  }

  function ShowRanges(ranges: seq<Range>): Text {
    if ranges == [] then [] else ShowRange(ranges[0]) + ShowRanges(ranges[1..])
  }

  function ShowAll(ts: seq<Token>): Text {
    if ts == [] then [] else Show(ts[0]) + ShowAll(ts[1..])
  }

  lemma {:induction false} ItemBack(r: Range, rest: Text)
    ensures NextItem(ShowRange(r) + rest, true) == Some(Item(r, rest))
  {
    var p := ShowRange(r) + rest;
    assert p[2..][1..] == [BACKSLASH, r.hi] + rest;
    assert ([BACKSLASH, r.hi] + rest)[2..] == rest;
  }

  lemma {:induction false} ItemsBack(ranges: seq<Range>, rest: Text)
    ensures ParseItems(ShowRanges(ranges) + ([CLOSE] + rest), true) == Some(Items(ranges, rest))
    decreases |ranges|
  {
    var tail := [CLOSE] + rest;
    if ranges == [] {
      assert ShowRanges(ranges) + tail == tail;
      assert tail[1..] == rest;
    } else {
      var more := ShowRanges(ranges[1..]) + tail;
      assert ShowRanges(ranges) + tail == ShowRange(ranges[0]) + more;
      ItemBack(ranges[0], more);
      ItemsBack(ranges[1..], rest);
      assert [ranges[0]] + ranges[1..] == ranges;
    }
  }

  lemma {:induction false} BracketBack(negate: bool, ranges: seq<Range>, rest: Text)
    ensures Tokens(Show(Bracket(negate, ranges)) + rest, true) == [Bracket(negate, ranges)] + Tokens(rest, true)
  {
    var p := Show(Bracket(negate, ranges)) + rest;
    var body := ShowRanges(ranges) + ([CLOSE] + rest);
    assert p[1..] == (if negate then [BANG] else []) + body;
    assert body[0] == BACKSLASH || body[0] == CLOSE by {
      if ranges != [] {
        assert body[0] == ShowRange(ranges[0])[0];
      }
    }
    assert Body(p[1..]) == body && Negated(p[1..]) == negate;
    ItemsBack(ranges, rest);
  }

  lemma {:induction false} TokenBack(t: Token, rest: Text)
    requires !t.Broken?
    ensures Tokens(Show(t) + rest, true) == [t] + Tokens(rest, true)
  {
    var p := Show(t) + rest;
    match t
    case Literal(c) => assert p[2..] == rest;
    case Any => assert p[1..] == rest;
    case Star => assert p[1..] == rest;
    case Bracket(negate, ranges) => BracketBack(negate, ranges, rest);
  }

  /** Reading the text of tokens gives the tokens back. */
  lemma {:induction false} TokensBack(ts: seq<Token>)
    requires forall i :: 0 <= i < |ts| ==> !ts[i].Broken?
    ensures Tokens(ShowAll(ts), true) == ts
    decreases |ts|
  {
    if ts != [] {
      TokenBack(ts[0], ShowAll(ts[1..]));
      TokensBack(ts[1..]);
    }
  }

  predicate Special(c: Ch, escape: bool) {
    c == STAR || c == QUERY || c == OPEN || (c == BACKSLASH && escape)
  }

  function Literals(s: Text): seq<Token> {
    seq(|s|, i requires 0 <= i < |s| => Literal(s[i]))
  }

  /** A text without special characters stands for itself, with quoting or without. */
  lemma {:induction false} PlainTokens(p: Text, escape: bool)
    requires forall i :: 0 <= i < |p| ==> !Special(p[i], escape)
    ensures Tokens(p, escape) == Literals(p)
    decreases |p|
  {
    if p != [] {
      PlainTokens(p[1..], escape);
      assert [Literal(p[0])] + Literals(p[1..]) == Literals(p);
    }
  }

  function Quote(s: Text): Text {
    if s == [] then [] else [BACKSLASH, s[0]] + Quote(s[1..])
  }

  lemma {:induction false} QuoteTokens(s: Text)
    ensures Tokens(Quote(s), true) == Literals(s)
    decreases |s|
  {
    if s != [] {
      QuoteTokens(s[1..]);
      assert Quote(s)[2..] == Quote(s[1..]);
      assert [Literal(s[0])] + Literals(s[1..]) == Literals(s);
    }
  }

  // ---------- what they match ----------

  lemma {:induction false} LiteralsMatch(t: Text, s: Text, path: bool)
    ensures Matches(Literals(t), s, path) <==> s == t
    decreases |t|
  {
    if t != [] {
      assert Literals(t)[1..] == Literals(t[1..]);
      if s != [] {
        LiteralsMatch(t[1..], s[1..], path);
        assert s == [s[0]] + s[1..] && t == [t[0]] + t[1..];
      }
    }
  }

  /** A quoted text matches only itself. */
  lemma {:induction false} QuotedMatchesItself(t: Text, s: Text, path: bool)
    ensures Matches(Tokens(Quote(t), true), s, path) <==> s == t
  {
    QuoteTokens(t);
    LiteralsMatch(t, s, path);
  }

  /** A token for one character: a question mark is any character, a bracket one that is in
      one of its ranges or, negated, in none. In a path neither is a slash. */
  lemma {:induction false} OneExact(c: Ch, ranges: seq<Range>, path: bool)
    ensures Matches([Any], [c], path) <==> !path || c != SLASH
    ensures Matches([Bracket(false, ranges)], [c], path) <==>
      (!path || c != SLASH) && exists i :: 0 <= i < |ranges| && c - ranges[i].lo >= 0 && ranges[i].hi - c >= 0
    ensures Matches([Bracket(true, ranges)], [c], path) <==>
      (!path || c != SLASH) && !Matches([Bracket(false, ranges)], [c], false)
  {
    forall t: Token | !t.Star? ensures Matches([t], [c], path) <==> One(t, c, path) {
      assert [t][1..] == [] && [c][1..] == [];
    }
    assert [Bracket(false, ranges)][1..] == [] && [c][1..] == [];
    if i :| 0 <= i < |ranges| && c - ranges[i].lo >= 0 && ranges[i].hi - c >= 0 {
      assert ranges[i].lo <= c <= ranges[i].hi;
    }
    if i :| 0 <= i < |ranges| && ranges[i].lo <= c <= ranges[i].hi {
      assert c - ranges[i].lo >= 0 && ranges[i].hi - c >= 0;
    }
  }

  function Slashes(s: Text): nat {
    if s == [] then 0 else (if s[0] == SLASH then 1 else 0) + Slashes(s[1..])
  }

  function SlashTokens(ts: seq<Token>): nat {
    if ts == [] then 0 else (if ts[0] == Literal(SLASH) then 1 else 0) + SlashTokens(ts[1..])
  }

  lemma {:induction false} SlashesJoin(a: Text, b: Text)
    ensures Slashes(a + b) == Slashes(a) + Slashes(b)
    decreases |a|
  {
    if a == [] {
      assert a + b == b;
    } else {
      assert (a + b)[1..] == a[1..] + b;
      SlashesJoin(a[1..], b);
    }
  }

  lemma {:induction false} PlainSlashes(s: Text)
    requires Plain(s, true)
    ensures Slashes(s) == 0
    decreases |s|
  {
    if s != [] {
      PlainSlashes(s[1..]);
    }
  }

  /** In a path every slash of the string is matched by a slash of the pattern. */
  lemma {:induction false} SlashesMatched(ts: seq<Token>, s: Text)
    requires Matches(ts, s, true)
    ensures Slashes(s) == SlashTokens(ts)
    decreases |ts|
  {
    if ts != [] {
      if ts[0].Star? {
        var k :| 0 <= k <= |s| && Plain(s[..k], true) && Matches(ts[1..], s[k..], true);
        SlashesMatched(ts[1..], s[k..]);
        PlainSlashes(s[..k]);
        SlashesJoin(s[..k], s[k..]);
        assert s == s[..k] + s[k..];
      } else {
        SlashesMatched(ts[1..], s[1..]);
      }
    }
  }
}
