/**
 File name patterns: what a pattern text stands for, and which strings it matches.
 */
module PatternSpec {
  import opened Options

  /** A signed character other than the end of a string. */
  type Ch = x: int | -128 <= x <= 127 && x != 0 witness 1

  const STAR: Ch := '*' as int
  const QUERY: Ch := '?' as int
  const OPEN: Ch := '[' as int
  const CLOSE: Ch := ']' as int
  const BACKSLASH: Ch := '\\' as int
  const SLASH: Ch := '/' as int
  const BANG: Ch := '!' as int
  const CARET: Ch := '^' as int
  const DASH: Ch := '-' as int

  type Text = seq<Ch>

  /** escape: a backslash quotes the next character. path: a slash is matched by a slash only. */
  datatype Flags = Flags(escape: bool, path: bool)

  datatype Range = Range(lo: Ch, hi: Ch)

  /** Broken stands for a bracket that is not closed: nothing matches it. */
  datatype Token = Literal(c: Ch) | Any | Star | Bracket(negate: bool, ranges: seq<Range>) | Broken

  // ---------- from text to tokens ----------

  datatype Quoted = Quoted(c: Ch, rest: Text)

  /** The next character of a bracket, which may be quoted. */
  function Next(p: Text, escape: bool): (r: Option<Quoted>)
    ensures r.Some? ==> |r.value.rest| < |p|
  {
    if p == [] then None
    else if p[0] == BACKSLASH && escape then (if |p| < 2 then None else Some(Quoted(p[1], p[2..])))
    else Some(Quoted(p[0], p[1..]))
  }

  datatype Item = Item(range: Range, rest: Text)

  /** The next character or range of a bracket. */
  function NextItem(p: Text, escape: bool): (r: Option<Item>)
    ensures r.Some? ==> |r.value.rest| < |p|
  {
    match Next(p, escape)
    case None => None
    case Some(Quoted(c, q)) =>
      if |q| >= 2 && q[0] == DASH && q[1] != CLOSE then
        match Next(q[1..], escape)
        case None => None
        case Some(Quoted(d, r)) => Some(Item(Range(c, d), r))
      else
        Some(Item(Range(c, c), q))
  }

  datatype Items = Items(ranges: seq<Range>, rest: Text)

  /** All of a bracket up to its end. */
  function ParseItems(p: Text, escape: bool): (r: Option<Items>)
    ensures r.Some? ==> |r.value.rest| < |p|
    decreases |p|
  {
    if p == [] then
      None
    else if p[0] == CLOSE then
      Some(Items([], p[1..]))
    else
      match NextItem(p, escape)
      case None => None
      case Some(Item(range, q)) =>
        match ParseItems(q, escape)
        case None => None
        case Some(items) => Some(Items([range] + items.ranges, items.rest))
  }

  predicate Negated(p: Text) {
    p != [] && (p[0] == BANG || p[0] == CARET)
  }

  function Body(p: Text): Text {
    if Negated(p) then p[1..] else p
  }

  function Tokens(p: Text, escape: bool): seq<Token>
    decreases |p|
  {
    if p == [] then
      []
    else if p[0] == QUERY then
      [Any] + Tokens(p[1..], escape)
    else if p[0] == STAR then
      [Star] + Tokens(p[1..], escape)
    else if p[0] == OPEN then
      match ParseItems(Body(p[1..]), escape)
      case None => [Broken]
      case Some(items) => [Bracket(Negated(p[1..]), items.ranges)] + Tokens(items.rest, escape)
    else if p[0] == BACKSLASH && escape then
      if |p| == 1 then [Literal(BACKSLASH)] else [Literal(p[1])] + Tokens(p[2..], escape)
    else
      [Literal(p[0])] + Tokens(p[1..], escape)
  }

  // ---------- what tokens match ----------

  predicate InSet(ranges: seq<Range>, c: Ch) {
    exists i :: 0 <= i < |ranges| && ranges[i].lo <= c <= ranges[i].hi
  }

  /** A token other than a star matches one character. */
  predicate One(t: Token, c: Ch, path: bool) {
    match t
    case Literal(d) => c == d
    case Any => !(path && c == SLASH)
    case Bracket(negate, ranges) => !(path && c == SLASH) && InSet(ranges, c) != negate
    case Star => false
    case Broken => false
  }

  predicate Plain(s: Text, path: bool) {
    path ==> forall i :: 0 <= i < |s| ==> s[i] != SLASH
  }

  /** The string can be split into pieces, one for each token, that match. */
  ghost predicate Matches(ts: seq<Token>, s: Text, path: bool)
    decreases |ts|
  {
    if ts == [] then
      s == []
    else if ts[0].Star? then
      exists k :: 0 <= k <= |s| && Plain(s[..k], path) && Matches(ts[1..], s[k..], path)
    else
      s != [] && One(ts[0], s[0], path) && Matches(ts[1..], s[1..], path)
  }

  /** A piece of the string matches a token. */
  ghost predicate Piece(t: Token, x: Text, path: bool) {
    if t.Star? then Plain(x, path) else |x| == 1 && One(t, x[0], path)
  }

  ghost function Joined(pieces: seq<Text>): Text {
    if pieces == [] then [] else pieces[0] + Joined(pieces[1..])
  }

  ghost predicate Split(ts: seq<Token>, s: Text, pieces: seq<Text>, path: bool) {
    |pieces| == |ts| && Joined(pieces) == s && forall i :: 0 <= i < |ts| ==> Piece(ts[i], pieces[i], path)
  }

  /** Matching is having a split. */
  lemma {:induction false} MatchesSplit(ts: seq<Token>, s: Text, path: bool)
    ensures Matches(ts, s, path) <==> exists pieces :: Split(ts, s, pieces, path)
  {
    if Matches(ts, s, path) {
      var pieces := SplitOf(ts, s, path);
    }
    if pieces :| Split(ts, s, pieces, path) {
      SplitMatches(ts, s, pieces, path);
    }
  }

  lemma {:induction false} SplitOf(ts: seq<Token>, s: Text, path: bool) returns (pieces: seq<Text>)
    requires Matches(ts, s, path)
    ensures Split(ts, s, pieces, path)
    decreases |ts|
  {
    if ts == [] {
      pieces := [];
    } else {
      var k := 1;
      if ts[0].Star? {
        k :| 0 <= k <= |s| && Plain(s[..k], path) && Matches(ts[1..], s[k..], path);
      }
      var rest := SplitOf(ts[1..], s[k..], path);
      pieces := [s[..k]] + rest;
      assert pieces[1..] == rest;
      assert s == s[..k] + s[k..];
      assert forall i :: 1 <= i < |ts| ==> ts[i] == ts[1..][i - 1] && pieces[i] == rest[i - 1];
    }
  }

  lemma {:induction false} SplitMatches(ts: seq<Token>, s: Text, pieces: seq<Text>, path: bool)
    requires Split(ts, s, pieces, path)
    ensures Matches(ts, s, path)
    decreases |ts|
  {
    if ts != [] {
      var k := |pieces[0]|;
      assert s[..k] == pieces[0] && s[k..] == Joined(pieces[1..]);
      SplitMatches(ts[1..], s[k..], pieces[1..], path);
      assert Piece(ts[0], pieces[0], path);
    }
  }

  // ---------- the shortcuts for stars ----------

  /** A star matches nothing, or one character and what a star matches after it. */
  lemma {:induction false} StarStep(ts: seq<Token>, s: Text, path: bool)
    requires ts != [] && ts[0].Star?
    ensures Matches(ts, s, path) <==>
      Matches(ts[1..], s, path) || (s != [] && !(path && s[0] == SLASH) && Matches(ts, s[1..], path))
  {
    if Matches(ts[1..], s, path) {
      assert s[..0] == [] && s[0..] == s;
      assert Plain(s[..0], path) && Matches(ts[1..], s[0..], path);
    }
    if s != [] && !(path && s[0] == SLASH) && Matches(ts, s[1..], path) {
      var k :| 0 <= k <= |s[1..]| && Plain(s[1..][..k], path) && Matches(ts[1..], s[1..][k..], path);
      assert s[1..][k..] == s[k + 1..];
      assert s[..k + 1] == [s[0]] + s[1..][..k];
      assert Plain(s[..k + 1], path);
    }
    if Matches(ts, s, path) {
      var k :| 0 <= k <= |s| && Plain(s[..k], path) && Matches(ts[1..], s[k..], path);
      if k == 0 {
        assert s[0..] == s;
      } else {
        assert s[..k][0] == s[0];
        assert s[1..][k - 1..] == s[k..];
        assert s[1..][..k - 1] == s[..k][1..];
        assert Plain(s[1..][..k - 1], path);
      }
    }
  }

  /** Two stars match what one star does. */
  lemma {:induction false} StarStar(ts: seq<Token>, s: Text, path: bool)
    requires |ts| >= 2 && ts[0].Star? && ts[1].Star?
    ensures Matches(ts, s, path) <==> Matches(ts[1..], s, path)
    decreases |s|
  {
    StarStep(ts, s, path);
    StarStep(ts[1..], s, path);
    if s != [] {
      StarStar(ts, s[1..], path);
    }
  }

  /** A star at the end matches anything, but no slash in a path. */
  lemma {:induction false} StarLast(s: Text, path: bool)
    ensures Matches([Star], s, path) <==> Plain(s, path)
  {
    assert [Star][1..] == [];
    if Matches([Star], s, path) {
      var k :| 0 <= k <= |s| && Plain(s[..k], path) && Matches([], s[k..], path);
      assert s[..k] == s;
    }
    if Plain(s, path) {
      assert s[..|s|] == s && s[|s|..] == [];
      assert Plain(s[..|s|], path) && Matches([], s[|s|..], path);
    }
  }

  /** In a path a star before a slash reaches to the next slash. */
  lemma {:induction false} StarSlash(ts: seq<Token>, s: Text, k: nat)
    requires |ts| >= 2 && ts[0].Star? && ts[1] == Literal(SLASH)
    requires k <= |s| && Plain(s[..k], true) && (k < |s| ==> s[k] == SLASH)
    ensures Matches(ts, s, true) <==> k < |s| && Matches(ts[1..], s[k..], true)
    decreases k
  {
    StarStep(ts, s, true);
    if k == 0 {
      assert s[0..] == s;
    } else {
      assert s[..k][0] == s[0];
      assert s[1..][..k - 1] == s[..k][1..];
      assert s[1..][k - 1..] == s[k..];
      StarSlash(ts, s[1..], k - 1);
    }
  }

  /** A star and then the pattern. */
  ghost predicate StarThen(p: Text, s: Text, f: Flags) {
    Matches([Star] + Tokens(p, f.escape), s, f.path)
  }

  /** A further star changes nothing. */
  lemma {:induction false} StarAgain(p: Text, s: Text, f: Flags)
    requires p != [] && p[0] == STAR
    ensures StarThen(p, s, f) <==> StarThen(p[1..], s, f)
  {
    var ts := [Star] + Tokens(p, f.escape);
    assert ts[1..] == [Star] + Tokens(p[1..], f.escape);
    StarStar(ts, s, f.path);
  }

  /** A pattern that starts with something else than a star needs a character. */
  lemma {:induction false} NeedsOne(ts: seq<Token>, path: bool)
    requires ts != [] && !ts[0].Star?
    ensures !Matches(ts, [], path)
  {
  }
}
