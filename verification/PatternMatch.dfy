/** Matching a file name against a pattern. */
module PatternMatch {
  import opened Options
  import opened PatternSpec

  /** What is known of a bracket when ok says whether a range read so far holds the character. */
  ghost function Verdict(r: Option<Items>, ok: bool, test: Ch): Option<(bool, Text)> {
    match r
    case None => None
    case Some(items) => Some((ok || InSet(items.ranges, test), items.rest))
  }

  lemma {:induction false} InSetMore(range: Range, ranges: seq<Range>, c: Ch)
    ensures InSet([range] + ranges, c) <==> range.lo <= c <= range.hi || InSet(ranges, c)
  {
    var all := [range] + ranges;
    if i :| 0 <= i < |all| && all[i].lo <= c <= all[i].hi {
      assert i > 0 ==> ranges[i - 1] == all[i];
    }
    if i :| 0 <= i < |ranges| && ranges[i].lo <= c <= ranges[i].hi {
      assert all[i + 1] == ranges[i];
    }
    if range.lo <= c <= range.hi {
      assert all[0] == range;
    }
  }

  /** Reading one more item of a bracket. */
  lemma {:induction false} VerdictStep(p: Text, escape: bool, ok: bool, test: Ch)
    requires p != [] && p[0] != CLOSE
    ensures Verdict(ParseItems(p, escape), ok, test) ==
      match NextItem(p, escape)
      case None => None
      case Some(item) =>
        Verdict(ParseItems(item.rest, escape), ok || item.range.lo <= test <= item.range.hi, test)
  {
    var next := NextItem(p, escape);
    if next.Some? {
      var r := ParseItems(next.value.rest, escape);
      if r.Some? {
        InSetMore(next.value.range, r.value.ranges, test);
      }
    }
  }

  /** Reads a character that may be quoted; the character is 0 at the end of the pattern. */
  method ReadQuoted(p: Text, i: nat, escape: bool) returns (c: int, k: nat)
    requires i <= |p|
    ensures i <= k <= |p|
    ensures match Next(p[i..], escape)
            case None => c == 0
            case Some(Quoted(d, rest)) => c == d && p[k..] == rest
  {
    k := i;
    if k == |p| {
      return 0, k;
    }
    c := p[k];
    k := k + 1;
    if c == BACKSLASH && escape {
      if k == |p| {
        return 0, k;
      }
      c := p[k];
      k := k + 1;
    }
  }

  /** Reads a character or a range of a bracket. */
  method ReadItem(p: Text, i: nat, escape: bool) returns (ok: bool, lo: Ch, hi: Ch, k: nat)
    requires i < |p|
    ensures ok == NextItem(p[i..], escape).Some?
    ensures ok ==> i < k <= |p| && NextItem(p[i..], escape) == Some(Item(Range(lo, hi), p[k..]))
  {
    var c: int;
    c, k := ReadQuoted(p, i, escape);
    if c == 0 {
      return false, 1, 1, k;
    }
    ok, lo, hi := true, c, c;
    ghost var q := p[k..];
    if k + 1 < |p| && p[k] == DASH && p[k + 1] != CLOSE {
      assert q[1..] == p[k + 1..];
      var d: int;
      d, k := ReadQuoted(p, k + 1, escape);
      if d == 0 {
        ok := false;
      } else {
        hi := d;
      }
    }
  }

  /** Reads a bracket from i on: the place behind it when it matches the character. */
  method RangeMatch(p: Text, i: nat, test: Ch, escape: bool) returns (next: Option<nat>)
    requires i <= |p|
    ensures match ParseItems(Body(p[i..]), escape)
            case None => next.None?
            case Some(items) =>
              if InSet(items.ranges, test) == Negated(p[i..]) then next.None?
              else next.Some? && i <= next.value <= |p| && p[next.value..] == items.rest
  {
    var k := i;
    var negate := k < |p| && (p[k] == BANG || p[k] == CARET);
    if negate {
      k := k + 1;
    }
    assert p[k..] == Body(p[i..]);
    ghost var v := Verdict(ParseItems(p[k..], escape), false, test);
    var ok := false;
    while k < |p| && p[k] != CLOSE
      invariant i <= k <= |p| && v == Verdict(ParseItems(p[k..], escape), ok, test)
      decreases |p| - k
    {
      VerdictStep(p[k..], escape, ok, test);
      var good, lo, hi, n := ReadItem(p, k, escape);
      if !good {
        return None;
      }
      if lo <= test && test <= hi {
        ok := true;
      }
      k := n;
    }
    if k == |p| {
      return None;
    }
    assert p[k..][1..] == p[k + 1..];
    next := if ok == negate then None else Some(k + 1);
  }

  /** The answer for the rest of pattern and string. */
  ghost predicate Answer(p: Text, i: nat, s: Text, j: nat, f: Flags)
    requires i <= |p| && j <= |s|
  {
    Matches(Tokens(p[i..], f.escape), s[j..], f.path)
  }

  /** Taking one token that is not a star off the pattern. */
  lemma {:induction false} AnswerOne(p: Text, i: nat, s: Text, j: nat, f: Flags, t: Token, k: nat)
    requires i < k <= |p| && j <= |s| && !t.Star? && Tokens(p[i..], f.escape) == [t] + Tokens(p[k..], f.escape)
    ensures Answer(p, i, s, j, f) <==> j < |s| && One(t, s[j], f.path) && Answer(p, k, s, j + 1, f)
  {
    var ts := Tokens(p[i..], f.escape);
    assert ts[1..] == Tokens(p[k..], f.escape);
    if j < |s| {
      assert s[j..][1..] == s[j + 1..];
    }
  }

  lemma {:induction false} TokensStar(p: Text, i: nat, f: Flags)
    requires i < |p| && p[i] == STAR
    ensures Tokens(p[i..], f.escape) == [Star] + Tokens(p[i + 1..], f.escape)
  {
    assert p[i..][1..] == p[i + 1..];
  }

  /** The place of the first slash from j on, or the end. */
  method FindSlash(s: Text, j: nat) returns (k: nat)
    requires j <= |s|
    ensures j <= k <= |s| && Plain(s[j..k], true) && (k < |s| ==> s[k] == SLASH)
  {
    k := j;
    while k < |s| && s[k] != SLASH
      invariant j <= k <= |s| && forall i :: j <= i < k ==> s[i] != SLASH
    {
      k := k + 1;
    }
  }

  /** Takes further stars off the pattern. */
  method CollapseStars(p: Text, i: nat, ghost s: Text, f: Flags) returns (k: nat)
    requires i < |p| && p[i] == STAR
    ensures i < k <= |p| && (k < |p| ==> p[k] != STAR)
    ensures Matches(Tokens(p[i..], f.escape), s, f.path) <==> StarThen(p[k..], s, f)
  {
    TokensStar(p, i, f);
    k := i + 1;
    ghost var want := StarThen(p[k..], s, f);
    while k < |p| && p[k] == STAR
      invariant i < k <= |p| && want == StarThen(p[k..], s, f)
    {
      StarAgain(p[k..], s, f);
      assert p[k..][1..] == p[k + 1..];
      k := k + 1;
    }
  }

  /** Tries the rest of the pattern at every place a star may reach. */
  method TryAll(p: Text, k: nat, s: Text, j: nat, f: Flags) returns (r: bool)
    requires 0 < k < |p| && p[k] != STAR && j <= |s|
    ensures r <==> StarThen(p[k..], s[j..], f)
    decreases |p|, 0
  {
    ghost var ts := Tokens(p[k..], f.escape);
    ghost var all := [Star] + ts;
    assert all[1..] == ts;
    var n := j;
    while n < |s|
      invariant j <= n <= |s| && (Matches(all, s[j..], f.path) <==> Matches(all, s[n..], f.path))
    {
      StarStep(all, s[n..], f.path);
      r := FnMatch(p[k..], s[n..], f);
      if r {
        return true;
      }
      if s[n] == SLASH && f.path {
        return false;
      }
      assert s[n..][1..] == s[n + 1..];
      n := n + 1;
    }
    StarStep(all, s[n..], f.path);
    assert s[n..] == [];
    FirstToken(p[k..], f.escape);
    NeedsOne(ts, f.path);
    r := false;
  }

  lemma {:induction false} FirstToken(p: Text, escape: bool)
    requires p != [] && p[0] != STAR
    ensures Tokens(p, escape) != [] && !Tokens(p, escape)[0].Star?
  {
  }

  /** A star: the answer, or the place to go on from. */
  method MatchStar(p: Text, i: nat, s: Text, j: nat, f: Flags) returns (r: Option<bool>, k: nat, n: nat)
    requires i < |p| && p[i] == STAR && j <= |s|
    ensures r.Some? ==> r.value == Answer(p, i, s, j, f)
    ensures r.None? ==> i < k <= |p| && n <= |s| && (Answer(p, i, s, j, f) <==> Answer(p, k, s, n, f))
    decreases |p|, 1
  {
    k := CollapseStars(p, i, s[j..], f);
    n := j;
    if k == |p| {
      assert Tokens(p[k..], f.escape) == [];
      assert [Star] + [] == [Star];
      StarLast(s[j..], f.path);
      if f.path {
        n := FindSlash(s, j);
        assert n < |s| ==> s[j..][n - j] == SLASH;
        assert n == |s| ==> s[j..n] == s[j..];
        r := Some(n == |s|);
      } else {
        r := Some(true);
      }
    } else if p[k] == SLASH && f.path {
      n := FindSlash(s, j);
      AfterSlash(p, k, s, j, n, f);
      r := if n == |s| then Some(false) else None;
    } else {
      var found := TryAll(p, k, s, j, f);
      r := Some(found);
    }
  }

  lemma {:induction false} AfterSlash(p: Text, k: nat, s: Text, j: nat, n: nat, f: Flags)
    requires k < |p| && p[k] == SLASH && f.path && j <= n <= |s|
    requires Plain(s[j..n], true) && (n < |s| ==> s[n] == SLASH)
    ensures StarThen(p[k..], s[j..], f) <==> n < |s| && Answer(p, k, s, n, f)
  {
    var ts := Tokens(p[k..], f.escape);
    var all := [Star] + ts;
    assert all[1..] == ts;
    assert s[j..][..n - j] == s[j..n];
    assert s[j..][n - j..] == s[n..];
    StarSlash(all, s[j..], n - j);
  }

  /** A token that is not a star: whether it matches, and the place to go on from. */
  method MatchOne(p: Text, i: nat, s: Text, j: nat, f: Flags) returns (r: bool, k: nat)
    requires i < |p| && p[i] != STAR && j <= |s|
    ensures r ==> i < k <= |p| && j < |s| && (Answer(p, i, s, j, f) <==> Answer(p, k, s, j + 1, f))
    ensures !r ==> !Answer(p, i, s, j, f)
  {
    ghost var q := p[i..];
    r, k := false, i + 1;
    if p[i] == QUERY {
      assert q[1..] == p[i + 1..];
      AnswerOne(p, i, s, j, f, Any, k);
      r := j < |s| && !(s[j] == SLASH && f.path);
    } else if p[i] == OPEN {
      assert q[1..] == p[i + 1..];
      r, k := MatchBracket(p, i, s, j, f);
    } else {
      var c := p[i];
      if c == BACKSLASH && f.escape && k < |p| {
        c := p[k];
        k := k + 1;
      }
      assert q[k - i..] == p[k..];
      AnswerOne(p, i, s, j, f, Literal(c), k);
      r := j < |s| && c == s[j];
    }
  }

  /** What a bracket that meets a character does. */
  lemma {:induction false} AnswerBracket(p: Text, i: nat, s: Text, j: nat, f: Flags)
    requires i < |p| && p[i] == OPEN && j < |s| && !(s[j] == SLASH && f.path)
    ensures match ParseItems(Body(p[i + 1..]), f.escape)
            case None => !Answer(p, i, s, j, f)
            case Some(items) =>
              Answer(p, i, s, j, f) <==>
                InSet(items.ranges, s[j]) != Negated(p[i + 1..]) && Matches(Tokens(items.rest, f.escape), s[j + 1..], f.path)
  {
    assert p[i..][1..] == p[i + 1..];
    assert s[j..][0] == s[j] && s[j..][1..] == s[j + 1..];
    var items := ParseItems(Body(p[i + 1..]), f.escape);
    if items.Some? {
      var t := Bracket(Negated(p[i + 1..]), items.value.ranges);
      assert ([t] + Tokens(items.value.rest, f.escape))[1..] == Tokens(items.value.rest, f.escape);
    }
  }

  method MatchBracket(p: Text, i: nat, s: Text, j: nat, f: Flags) returns (r: bool, k: nat)
    requires i < |p| && p[i] == OPEN && j <= |s|
    ensures r ==> i < k <= |p| && j < |s| && (Answer(p, i, s, j, f) <==> Answer(p, k, s, j + 1, f))
    ensures !r ==> !Answer(p, i, s, j, f)
  {
    r, k := false, i + 1;
    if j == |s| {
      FirstToken(p[i..], f.escape);
      NeedsOne(Tokens(p[i..], f.escape), f.path);
      assert s[j..] == [];
      return;
    }
    if s[j] == SLASH && f.path {
      BracketSlash(p[i..], f.escape);
      assert s[j..][0] == s[j];
      return;
    }
    AnswerBracket(p, i, s, j, f);
    var next := RangeMatch(p, i + 1, s[j], f.escape);
    if next.Some? {
      r, k := true, next.value;
    }
  }

  /** In a path a bracket does not match a slash. */
  lemma {:induction false} BracketSlash(q: Text, escape: bool)
    requires q != [] && q[0] == OPEN
    ensures Tokens(q, escape) != [] && !Tokens(q, escape)[0].Star? && !One(Tokens(q, escape)[0], SLASH, true)
  {
  }

  /** fnmatch: whether the string has a split that matches the tokens of the pattern. */
  method FnMatch(p: Text, s: Text, f: Flags) returns (r: bool)
    ensures r == Matches(Tokens(p, f.escape), s, f.path)
    decreases |p|, 2
  {
    var i: nat, j: nat := 0, 0;
    assert p[0..] == p && s[0..] == s;
    while i < |p|
      invariant i <= |p| && j <= |s| && (Answer(p, 0, s, 0, f) <==> Answer(p, i, s, j, f))
      decreases |p| - i
    {
      if p[i] == STAR {
        var known, k, n := MatchStar(p, i, s, j, f);
        if known.Some? {
          return known.value;
        }
        i, j := k, n;
      } else {
        var ok, k := MatchOne(p, i, s, j, f);
        if !ok {
          return false;
        }
        i, j := k, j + 1;
      }
    }
    assert Tokens(p[i..], f.escape) == [];
    r := j == |s|;
  }
}
