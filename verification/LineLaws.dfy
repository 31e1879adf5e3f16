/** What whole sequences of keys make of a line. */
module LineLaws {
  import opened LineEditing

  /** Keys that neither end the call nor complete a word. */
  predicate Plain(key: Key) {
    !key.Tab? && !key.Enter? && !key.Eof? && !key.Esc?
  }

  predicate AllPlain(keys: seq<Key>) {
    forall i :: 0 <= i < |keys| ==> Plain(keys[i])
  }

  /** A line as a call starts with it. */
  function Blank(e: Env): Line {
    Line("", 0, true, |e.history|)
  }

  ghost function EditAll(l: Line, keys: seq<Key>, e: Env): (k: Line)
    requires Fits(l, e)
    ensures Fits(k, e)
    decreases |keys|
  {
    if keys == [] then l else
      EditFits(l, keys[0], e);
      EditAll(Edit(l, keys[0], e), keys[1..], e)
  }

  lemma {:induction false} EditJoin(l: Line, a: seq<Key>, b: seq<Key>, e: Env)
    requires Fits(l, e)
    ensures EditAll(l, a + b, e) == EditAll(EditAll(l, a, e), b, e)
    decreases |a|
  {
    if a == [] {
      assert a + b == b;
    } else {
      EditFits(l, a[0], e);
      assert (a + b)[1..] == a[1..] + b;
      EditJoin(Edit(l, a[0], e), a[1..], b, e);
    }
  }

  lemma {:induction false} EditOne(l: Line, key: Key, e: Env)
    requires Fits(l, e)
    ensures EditAll(l, [key], e) == Edit(l, key, e)
  {
    EditFits(l, key, e);
    assert [key][1..] == [];
  }

  /** A call runs through such keys by editing. */
  lemma {:induction false} RunEdits(l: Line, keys: seq<Key>, rest: seq<Key>, e: Env)
    requires Fits(l, e) && AllPlain(keys)
    ensures Run(l, Editing, keys + rest, e) == Run(EditAll(l, keys, e), Editing, rest, e)
    decreases |keys|
  {
    if keys == [] {
      assert keys + rest == rest;
    } else {
      EditFits(l, keys[0], e);
      assert (keys + rest)[1..] == keys[1..] + rest;
      RunEdits(Edit(l, keys[0], e), keys[1..], rest, e);
    }
  }

  /** The line that is entered after such keys. */
  lemma {:induction false} RunEnters(l: Line, keys: seq<Key>, e: Env)
    requires Fits(l, e) && AllPlain(keys)
    ensures Run(l, Editing, keys + [Enter], e) == (Entered, EditAll(l, keys, e))
  {
    RunEdits(l, keys, [Enter], e);
  }

  // ---------- typing ----------

  predicate Typable(s: string) {
    forall i :: 0 <= i < |s| ==> 0x20 <= s[i] as int <= 0xFF
  }

  function Typed(s: string): (keys: seq<Key>)
    ensures AllPlain(keys)
  {
    seq(|s|, i requires 0 <= i < |s| => Char(s[i]))
  }

  /** A text typed in insert mode goes in at the cursor. */
  lemma {:induction false} TypeInserts(l: Line, s: string, e: Env)
    requires Fits(l, e) && l.insert && Typable(s) && |l.text| + |s| < e.size
    ensures EditAll(l, Typed(s), e) == l.(text := l.text[..l.idx] + s + l.text[l.idx..], idx := l.idx + |s|)
    decreases |s|
  {
    if s == "" {
      assert l.text[..l.idx] + s + l.text[l.idx..] == l.text;
    } else {
      var k := Edit(l, Char(s[0]), e);
      EditFits(l, Char(s[0]), e);
      assert Typed(s)[1..] == Typed(s[1..]);
      TypeInserts(k, s[1..], e);
      assert k.text[..k.idx] == l.text[..l.idx] + [s[0]] && k.text[k.idx..] == l.text[l.idx..];
      assert l.text[..l.idx] + [s[0]] + s[1..] == l.text[..l.idx] + s;
    }
  }

  /** A text typed in overwrite mode takes the place of what is there. */
  lemma {:induction false} TypeReplaces(l: Line, s: string, e: Env)
    requires Fits(l, e) && !l.insert && Typable(s) && l.idx + |s| < e.size
    ensures EditAll(l, Typed(s), e) ==
      l.(text := l.text[..l.idx] + s + (if l.idx + |s| <= |l.text| then l.text[l.idx + |s|..] else ""), idx := l.idx + |s|)
    decreases |s|
  {
    if s == "" {
      assert l.text[..l.idx] + s + l.text[l.idx..] == l.text;
    } else {
      var k := Edit(l, Char(s[0]), e);
      EditFits(l, Char(s[0]), e);
      assert Typed(s)[1..] == Typed(s[1..]);
      TypeReplaces(k, s[1..], e);
      assert k.text[..k.idx] == l.text[..l.idx] + [s[0]];
      assert l.text[..l.idx] + [s[0]] + s[1..] == l.text[..l.idx] + s;
      if k.idx + |s[1..]| <= |k.text| {
        assert k.text[k.idx + |s[1..]|..] == if l.idx + |s| <= |l.text| then l.text[l.idx + |s|..] else "";
      }
    }
  }

  /** What is typed is what is entered. */
  lemma {:induction false} TypeEnter(s: string, e: Env)
    requires Typable(s) && |s| < e.size
    ensures Run(Blank(e), Editing, Typed(s) + [Enter], e) == (Entered, Blank(e).(text := s, idx := |s|))
  {
    RunEnters(Blank(e), Typed(s), e);
    TypeInserts(Blank(e), s, e);
    assert "" + s + "" == s;
  }

  // ---------- moving ----------

  predicate Move(key: Key) {
    key.Left? || key.Right? || key.CtrlLeft? || key.CtrlRight? || key.Home? || key.End?
  }

  predicate Moves(keys: seq<Key>) {
    forall i :: 0 <= i < |keys| ==> Move(keys[i])
  }

  /** Moving leaves everything but the cursor. */
  lemma {:induction false} MovesKeep(l: Line, keys: seq<Key>, e: Env)
    requires Fits(l, e) && Moves(keys)
    ensures EditAll(l, keys, e) == l.(idx := EditAll(l, keys, e).idx)
    decreases |keys|
  {
    if keys != [] {
      EditFits(l, keys[0], e);
      MovesKeep(Edit(l, keys[0], e), keys[1..], e);
    }
  }

  /** Typing s, moving about, then going to the start and typing t gives t before s. */
  lemma {:induction false} HomeTypes(s: string, moves: seq<Key>, t: string, e: Env)
    requires Typable(s) && Typable(t) && Moves(moves) && |s| + |t| < e.size
    ensures Run(Blank(e), Editing, Typed(s) + moves + [Home] + Typed(t) + [Enter], e)
            == (Entered, Blank(e).(text := t + s, idx := |t|))
  {
    var l := AfterMoves(s, moves, Home, e);
    TypeInserts(l, t, e);
    assert l.text[..0] + t + l.text[0..] == t + s;
    Finish(Typed(s) + moves + [Home], Typed(t), e);
  }

  /** Typing s, moving about, then going to the end and typing t gives s before t. */
  lemma {:induction false} EndTypes(s: string, moves: seq<Key>, t: string, e: Env)
    requires Typable(s) && Typable(t) && Moves(moves) && |s| + |t| < e.size
    ensures Run(Blank(e), Editing, Typed(s) + moves + [End] + Typed(t) + [Enter], e)
            == (Entered, Blank(e).(text := s + t, idx := |s| + |t|))
  {
    var l := AfterMoves(s, moves, End, e);
    TypeInserts(l, t, e);
    assert l.text[..|s|] + t + l.text[|s|..] == s + t;
    Finish(Typed(s) + moves + [End], Typed(t), e);
  }

  /** The line after typing s, moving about and one more key. */
  lemma {:induction false} AfterMoves(s: string, moves: seq<Key>, last: Key, e: Env) returns (l: Line)
    requires Typable(s) && Moves(moves) && |s| < e.size && (last == Home || last == End)
    ensures l == EditAll(Blank(e), Typed(s) + moves + [last], e) && AllPlain(Typed(s) + moves + [last])
    ensures l == Blank(e).(text := s, idx := if last == Home then 0 else |s|)
  {
    var keys := Typed(s) + moves;
    l := EditAll(Blank(e), keys + [last], e);
    EditJoin(Blank(e), keys, [last], e);
    EditJoin(Blank(e), Typed(s), moves, e);
    TypeInserts(Blank(e), s, e);
    assert "" + s + "" == s;
    MovesKeep(EditAll(Blank(e), Typed(s), e), moves, e);
    EditOne(EditAll(Blank(e), keys, e), last, e);
  }

  lemma {:induction false} Finish(a: seq<Key>, b: seq<Key>, e: Env)
    requires Fits(Blank(e), e) && AllPlain(a) && AllPlain(b)
    ensures Run(Blank(e), Editing, a + b + [Enter], e) == (Entered, EditAll(EditAll(Blank(e), a, e), b, e))
  {
    EditJoin(Blank(e), a, b, e);
    RunEnters(Blank(e), a + b, e);
  }

  function Times(key: Key, n: nat): (keys: seq<Key>)
    ensures |keys| == n && forall i :: 0 <= i < n ==> keys[i] == key
  {
    seq(n, _ => key)
  }

  lemma {:induction false} TimesMore(key: Key, n: nat)
    requires n > 0
    ensures Times(key, n)[1..] == Times(key, n - 1) && Times(key, n) == Times(key, n - 1) + [key]
  {
  }

  /** n times to the left moves the cursor by n places, or to the start. */
  lemma {:induction false} Lefts(l: Line, n: nat, e: Env)
    requires Fits(l, e)
    ensures EditAll(l, Times(Left, n), e) == l.(idx := if n <= l.idx then l.idx - n else 0)
    decreases n
  {
    if n > 0 {
      EditFits(l, Left, e);
      TimesMore(Left, n);
      Lefts(Edit(l, Left, e), n - 1, e);
    }
  }

  lemma {:induction false} Rights(l: Line, n: nat, e: Env)
    requires Fits(l, e)
    ensures EditAll(l, Times(Right, n), e) == l.(idx := if l.idx + n <= |l.text| then l.idx + n else |l.text|)
    decreases n
  {
    if n > 0 {
      EditFits(l, Right, e);
      TimesMore(Right, n);
      Rights(Edit(l, Right, e), n - 1, e);
    }
  }

  /** As many to the right as to the left restore the line. */
  lemma {:induction false} LeftsRights(l: Line, n: nat, e: Env)
    requires Fits(l, e) && n <= l.idx
    ensures EditAll(l, Times(Left, n) + Times(Right, n), e) == l
  {
    EditJoin(l, Times(Left, n), Times(Right, n), e);
    Lefts(l, n, e);
    Rights(l.(idx := l.idx - n), n, e);
  }

  /** Left of a word typed last, and behind the first word. */
  lemma {:induction false} WordMoves(s: string, w: string, e: Env, l: Line)
    requires Fits(l, e) && (forall i :: 0 <= i < |w| ==> w[i] != ' ')
    ensures w != "" && l.text == s + " " + w && l.idx == |l.text| ==> Edit(l, CtrlLeft, e).idx == |s| + 1
    ensures w != "" && l.text == w && l.idx == |w| ==> Edit(l, CtrlLeft, e).idx == 0
    ensures l.text == w + " " + s && l.idx == 0 ==> Edit(l, CtrlRight, e).idx == |w| + 1
    ensures l.text == w && l.idx == 0 ==> Edit(l, CtrlRight, e).idx == |w|
  {
    if w != "" && l.text == s + " " + w && l.idx == |l.text| {
      var k := WordLeft(l.text, l.idx - 1);
      assert l.text[|s|] == ' ';
      assert forall i :: 0 <= i < |w| ==> l.text[|s| + 1 + i] == w[i];
      assert forall j :: |s| + 1 <= j < |l.text| ==> l.text[j] == w[j - |s| - 1];
    }
    if l.text == w + " " + s && l.idx == 0 {
      var k := WordRight(l.text, 0);
      assert l.text[|w|] == ' ';
      assert forall i :: 0 <= i < |w| ==> l.text[i] == w[i];
    }
    if l.text == w && l.idx == 0 {
      var k := WordRight(l.text, 0);
    }
  }

  // ---------- taking away ----------

  /** One to the left and then deleting is a backspace. */
  lemma {:induction false} LeftDel(l: Line, e: Env)
    requires Fits(l, e) && l.idx > 0
    ensures EditAll(l, [Left, Del], e) == EditAll(l, [Backspace], e)
  {
    EditJoin(l, [Left], [Del], e);
    assert [Left] + [Del] == [Left, Del];
    EditOne(l, Left, e);
    EditOne(Edit(l, Left, e), Del, e);
    EditOne(l, Backspace, e);
  }

  /** Backspaces take what stands before the cursor. */
  lemma {:induction false} Backspaces(l: Line, n: nat, e: Env)
    requires Fits(l, e) && n <= l.idx
    ensures EditAll(l, Times(Backspace, n), e) == l.(text := l.text[..l.idx - n] + l.text[l.idx..], idx := l.idx - n)
    decreases n
  {
    if n == 0 {
      assert l.text == l.text[..l.idx] + l.text[l.idx..];
    } else {
      EditFits(l, Backspace, e);
      TimesMore(Backspace, n);
      var k := Edit(l, Backspace, e);
      Backspaces(k, n - 1, e);
      assert k.text[..k.idx - (n - 1)] == l.text[..l.idx - n] && k.text[k.idx..] == l.text[l.idx..];
    }
  }

  /** As many backspaces as characters restore the line. */
  lemma {:induction false} TypeBackspaces(l: Line, s: string, e: Env)
    requires Fits(l, e) && l.insert && Typable(s) && |l.text| + |s| < e.size
    ensures EditAll(l, Typed(s) + Times(Backspace, |s|), e) == l
  {
    EditJoin(l, Typed(s), Times(Backspace, |s|), e);
    TypeInserts(l, s, e);
    var k := EditAll(l, Typed(s), e);
    Backspaces(k, |s|, e);
    assert k.text[..k.idx - |s|] == l.text[..l.idx] && k.text[k.idx..] == l.text[l.idx..];
    assert l.text == l.text[..l.idx] + l.text[l.idx..];
  }

  /** Escape clears the line, unless it ends the call. */
  lemma {:induction false} EscapeClears(l: Line, rest: seq<Key>, e: Env)
    requires Fits(l, e)
    ensures Run(l, Editing, [Esc] + rest, e) ==
      if e.breakOnEscape then (Broken, l) else Run(l.(text := "", idx := 0), Editing, rest, e)
  {
    assert ([Esc] + rest)[1..] == rest;
  }

  /** The end-of-file key ends the call on an empty line and does nothing on any other. */
  lemma {:induction false} EofEnds(l: Line, rest: seq<Key>, e: Env)
    requires Fits(l, e)
    ensures Run(l, Editing, [Eof] + rest, e) == if l.text == "" then (AtEof, l) else Run(l, Editing, rest, e)
  {
    assert ([Eof] + rest)[1..] == rest;
  }

  // ---------- overwriting ----------

  /** In overwrite mode a text typed from the start takes the place of what was typed before. */
  lemma {:induction false} OverwriteTypes(s: string, t: string, e: Env)
    requires Typable(s) && Typable(t) && |s| < e.size && |t| < e.size
    ensures Run(Blank(e), Editing, (Typed(s) + [Ins, Home]) + Typed(t) + [Enter], e)
            == (Entered, Line(if |t| <= |s| then t + s[|t|..] else t, |t|, false, |e.history|))
  {
    var l := EditAll(Blank(e), Typed(s), e);
    TypeInserts(Blank(e), s, e);
    assert "" + s + "" == s;
    var k := l.(insert := false, idx := 0);
    EditJoin(Blank(e), Typed(s), [Ins, Home], e);
    EditJoin(l, [Ins], [Home], e);
    assert [Ins] + [Home] == [Ins, Home];
    EditOne(l, Ins, e);
    EditOne(l.(insert := false), Home, e);
    TypeReplaces(k, t, e);
    assert k.text[..0] + t == t && t + "" == t;
    Finish(Typed(s) + [Ins, Home], Typed(t), e);
  }

  /** Changing the mode twice changes nothing. */
  lemma {:induction false} InsTwice(l: Line, e: Env)
    requires Fits(l, e)
    ensures EditAll(l, [Ins, Ins], e) == l
  {
    EditJoin(l, [Ins], [Ins], e);
    assert [Ins] + [Ins] == [Ins, Ins];
    EditOne(l, Ins, e);
    EditOne(Edit(l, Ins, e), Ins, e);
  }

  /** In insert mode what does not fit is left out. */
  lemma {:induction false} TypeFull(s: string, e: Env)
    requires Typable(s) && |s| >= e.size > 0
    ensures EditAll(Blank(e), Typed(s), e) == Blank(e).(text := s[..e.size - 1], idx := e.size - 1)
  {
    var a, b := s[..e.size - 1], s[e.size - 1..];
    assert s == a + b && Typed(s) == Typed(a) + Typed(b);
    EditJoin(Blank(e), Typed(a), Typed(b), e);
    TypeInserts(Blank(e), a, e);
    assert "" + a + "" == a;
    FullStays(Blank(e).(text := a, idx := |a|), b, e);
  }

  lemma {:induction false} FullStays(l: Line, s: string, e: Env)
    requires Fits(l, e) && l.insert && |l.text| + 1 == e.size
    ensures EditAll(l, Typed(s), e) == l
    decreases |s|
  {
    if s != "" {
      assert Typed(s)[1..] == Typed(s[1..]);
      FullStays(l, s[1..], e);
    }
  }

  // ---------- history ----------

  /** k times up shows the line entered k calls ago, as far as it fits. */
  lemma {:induction false} Ups(l: Line, k: nat, e: Env)
    requires Fits(l, e) && l.recall == |e.history| && 0 < k <= |e.history|
    ensures var line, shown := e.history[|e.history| - k], EditAll(l, Times(Up, k), e);
            && shown.text == (if |line| < e.size then line else line[..e.size - 1])
            && shown.idx == |shown.text| && shown.recall == |e.history| - k && shown.insert == l.insert
    decreases k
  {
    TimesMore(Up, k);
    EditJoin(l, Times(Up, k - 1), [Up], e);
    var before := EditAll(l, Times(Up, k - 1), e);
    EditOne(before, Up, e);
    if k > 1 {
      Ups(l, k - 1, e);
    } else {
      assert Times(Up, 0) == [];
    }
  }

  /** Up and then down returns to the line shown before. */
  lemma {:induction false} UpDown(l: Line, k: nat, e: Env)
    requires Fits(l, e) && l.recall == |e.history| && 0 < k < |e.history|
    ensures EditAll(l, Times(Up, k) + [Up, Down], e) == EditAll(l, Times(Up, k), e)
  {
    var shown := EditAll(l, Times(Up, k), e);
    Ups(l, k, e);
    EditJoin(l, Times(Up, k), [Up, Down], e);
    EditJoin(shown, [Up], [Down], e);
    assert [Up] + [Down] == [Up, Down];
    EditOne(shown, Up, e);
    EditOne(Edit(shown, Up, e), Down, e);
  }

  /** Up at the oldest line and down at the latest one change nothing. */
  lemma {:induction false} HistoryEnds(l: Line, e: Env)
    requires Fits(l, e)
    ensures l.recall == 0 ==> EditAll(l, [Up], e) == l
    ensures l.recall + 1 >= |e.history| ==> EditAll(l, [Down], e) == l
  {
    EditOne(l, Up, e);
    EditOne(l, Down, e);
  }

  /** Whatever lines have been entered, the one entered last is the first to come back. */
  lemma {:induction false} LastLineFirst(h: seq<string>, line: string, l: Line, e: Env)
    requires line != "" && e.history == AddHistory(h, line) && |line| < e.size && Fits(l, e) && l.recall == |e.history|
    ensures EditAll(l, [Up], e).text == line
  {
    assert Times(Up, 1) == [Up];
    Ups(l, 1, e);
  }
}
