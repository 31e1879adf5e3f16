/**
 The line editor on values: what each key does to the text and the cursor, including
 tab completion and recall of earlier lines.
 */
module LineEditing {

  const MAX_HISTORY: nat := 64

  datatype Key = Left | Right | CtrlLeft | CtrlRight | Home | End | Del | Ins | Backspace | Esc | Eof | Enter
               | Up | Down | Tab | Unknown | Char(c: char)

  /** The text, the cursor, whether typing inserts, and the line of the history shown last. */
  datatype Line = Line(text: string, idx: nat, insert: bool, recall: nat)

  datatype Listing = NoDir | Names(names: seq<string>)

  /** Between two tabs the names not yet offered and the range of the word stay fixed. */
  datatype Mode = Editing | Completing(names: seq<string>, split: nat, end: nat, mask: string)

  datatype Env = Env(history: seq<string>, size: nat, dir: string -> Listing, breakOnEscape: bool)

  /** The invariant of the editor: there is always room for the terminating zero. */
  ghost predicate Fits(l: Line, e: Env) {
    l.idx <= |l.text| < e.size && l.recall <= |e.history|
  }

  /** Where the text to be completed is. */
  ghost predicate Selects(m: Mode, l: Line) {
    m.Completing? ==> m.split <= m.end <= |l.text| && l.idx == m.end
  }

  predicate Glyph(c: char) {
    ' ' <= c
  }

  predicate Printable(s: string) {
    forall i :: 0 <= i < |s| ==> Glyph(s[i])
  }

  ghost predicate Clean(e: Env) {
    && (forall i :: 0 <= i < |e.history| ==> Printable(e.history[i]))
    && (forall p, i :: e.dir(p).Names? && 0 <= i < |e.dir(p).names| ==> Printable(e.dir(p).names[i]))
  }

  // ---------- editing keys ----------

  function WordLeft(s: string, i: nat): (k: nat)
    requires i <= |s|
    ensures k <= i && (k == 0 || s[k - 1] == ' ') && forall j :: k <= j < i ==> s[j] != ' '
  {
    if i > 0 && s[i - 1] != ' ' then WordLeft(s, i - 1) else i
  }

  function WordRight(s: string, i: nat): (k: nat)
    requires i <= |s|
    ensures i <= k <= |s| && (k == |s| || s[k] == ' ') && forall j :: i <= j < k ==> s[j] != ' '
    decreases |s| - i
  {
    if i < |s| && s[i] != ' ' then WordRight(s, i + 1) else i
  }

  function Delete(l: Line, i: nat): Line
    requires i < |l.text|
  {
    l.(text := l.text[..i] + l.text[i + 1..], idx := i)
  }

  function Type(l: Line, c: char, size: nat): Line
    requires l.idx <= |l.text|
  {
    var (s, i) := (l.text, l.idx);
    if !(0x20 <= c as int <= 0xFF) then
      l
    else if l.insert then
      if |s| + 1 < size then l.(text := s[..i] + [c] + s[i..], idx := i + 1) else l
    else
      if i + 1 < size then l.(text := s[..i] + [c] + (if i < |s| then s[i + 1..] else []), idx := i + 1) else l
  }

  function Clip(s: string, size: nat): string
    requires size > 0
  {
    if |s| < size then s else s[..size - 1]
  }

  function Recall(l: Line, k: nat, e: Env): Line
    requires k < |e.history| && e.size > 0
  {
    var s := Clip(e.history[k], e.size);
    Line(s, |s|, l.insert, k)
  }

  /** The keys that edit the line. */
  function Edit(l: Line, key: Key, e: Env): Line
    requires l.idx <= |l.text| < e.size && l.recall <= |e.history|
  {
    var (s, i) := (l.text, l.idx);
    match key
    case Left => if i > 0 then l.(idx := i - 1) else l
    case Right => if i < |s| then l.(idx := i + 1) else l
    case CtrlLeft => if i > 0 then l.(idx := WordLeft(s, i - 1)) else l
    case CtrlRight => (var k := WordRight(s, i); l.(idx := if k < |s| then k + 1 else k))
    case Home => l.(idx := 0)
    case End => l.(idx := |s|)
    case Del => if i < |s| then Delete(l, i) else l
    case Ins => l.(insert := !l.insert)
    case Backspace => if i > 0 then Delete(l, i - 1) else l
    case Esc => l.(text := "", idx := 0)
    case Up => if l.recall > 0 then Recall(l, l.recall - 1, e) else l
    case Down => if l.recall + 1 < |e.history| then Recall(l, l.recall + 1, e) else l
    case Char(c) => Type(l, c, e.size)
    case Eof => l
    case Enter => l
    case Tab => l
    case Unknown => l
  }

  // ---------- completion ----------

  predicate Delimiter(c: char) {
    c == ' ' || c == ',' || c == ';'
  }

  predicate Separator(c: char) {
    c == '/' || c == '\\'
  }

  /** The start of the word that ends at i. */
  function WordStart(s: string, i: nat): (k: nat)
    requires i <= |s|
    ensures k <= i
  {
    if i > 0 && !Delimiter(s[i - 1]) then WordStart(s, i - 1) else i
  }

  function WordEnd(s: string, i: nat): (k: nat)
    requires i <= |s|
    ensures i <= k <= |s|
    decreases |s| - i
  {
    if i < |s| && !Delimiter(s[i]) then WordEnd(s, i + 1) else i
  }

  /** Behind the last separator of the word from i on, or else at split. */
  function NameStart(s: string, i: nat, split: nat): (k: nat)
    requires split <= i <= |s|
    ensures split <= k <= WordEnd(s, i)
    decreases |s| - i
  {
    if i < |s| && !Delimiter(s[i]) then NameStart(s, i + 1, if Separator(s[i]) then i + 1 else split) else split
  }

  function Path(s: string, start: nat, split: nat): string
    requires start <= split <= |s|
  {
    if start == split then "." else s[start..split]
  }

  predicate Wild(s: string) {
    exists i :: 0 <= i < |s| && (s[i] == '*' || s[i] == '?')
  }

  function Mask(s: string): string {
    if s == "" then "*" else if Wild(s) then s else s + "*"
  }

  /** A name matches a mask of characters, ? for one and * for any number of them. */
  ghost predicate Matches(s: string, mask: string)
    decreases |mask|
  {
    if mask == "" then
      s == ""
    else if mask[0] == '*' then
      exists k :: 0 <= k <= |s| && Matches(s[k..], mask[1..])
    else
      s != "" && (mask[0] == s[0] || mask[0] == '?') && Matches(s[1..], mask[1..])
  }

  function SkipStars(mask: string): (r: string)
    ensures |r| <= |mask| && (r == "" || r[0] != '*')
    ensures mask != "" && mask[0] == '*' ==> |r| < |mask|
  {
    if mask != "" && mask[0] == '*' then SkipStars(mask[1..]) else mask
  }

  /** Matching as coded. */
  predicate Like(s: string, mask: string)
    decreases |mask|, |s|, 0
  {
    if mask == "" then
      s == ""
    else if mask[0] == '*' then
      var rest := SkipStars(mask);
      rest == "" || LikeFrom(s, rest)
    else if s != "" && (mask[0] == s[0] || mask[0] == '?') then
      Like(s[1..], mask[1..])
    else
      false
  }

  /** Some non-empty rest of the name matches. */
  predicate LikeFrom(s: string, mask: string)
    decreases |mask|, |s|, 1
  {
    s != "" && (Like(s, mask) || LikeFrom(s[1..], mask))
  }

  lemma {:induction false} LikeExact(s: string, mask: string)
    ensures Like(s, mask) <==> Matches(s, mask)
    decreases |mask|, |s|, 0
  {
    if mask == "" {
    } else if mask[0] == '*' {
      var rest := SkipStars(mask);
      StarsExact(s, mask);
      if rest == "" {
        assert s[|s|..] == "";
        assert Matches(s[|s|..], rest);
      } else {
        LikeFromExact(s, rest);
      }
    } else if s != "" {
      LikeExact(s[1..], mask[1..]);
    }
  }

  /** A run of stars matches what one star does. */
  lemma {:induction false} StarsExact(s: string, mask: string)
    requires mask != "" && mask[0] == '*'
    ensures Matches(s, mask) <==> exists k :: 0 <= k <= |s| && Matches(s[k..], SkipStars(mask))
    decreases |mask|
  {
    var next := mask[1..];
    if next != "" && next[0] == '*' {
      if Matches(s, mask) {
        var k :| 0 <= k <= |s| && Matches(s[k..], next);
        StarsExact(s[k..], next);
        var j :| 0 <= j <= |s[k..]| && Matches(s[k..][j..], SkipStars(next));
        assert s[k..][j..] == s[k + j..];
      }
      if k :| 0 <= k <= |s| && Matches(s[k..], SkipStars(mask)) {
        StarsExact(s, next);
        assert s[0..] == s;
        assert Matches(s[0..], next);
      }
    }
  }

  ghost predicate Somewhere(s: string, mask: string) {
    exists k :: 0 <= k <= |s| && Matches(s[k..], mask)
  }

  lemma {:induction false} SomewhereNext(s: string, mask: string)
    requires s != ""
    ensures Matches(s, mask) || Somewhere(s[1..], mask) ==> Somewhere(s, mask)
  {
    assert s[0..] == s;
    if k :| 0 <= k <= |s[1..]| && Matches(s[1..][k..], mask) {
      assert s[1..][k..] == s[k + 1..];
    }
  }

  lemma {:induction false} SomewhereFirst(s: string, mask: string)
    requires s != "" && Somewhere(s, mask)
    ensures Matches(s, mask) || Somewhere(s[1..], mask)
  {
    var k :| 0 <= k <= |s| && Matches(s[k..], mask);
    if k > 0 {
      assert s[1..][k - 1..] == s[k..];
    } else {
      assert s[0..] == s;
    }
  }

  lemma {:induction false} LikeFromExact(s: string, mask: string)
    requires mask != "" && mask[0] != '*'
    ensures LikeFrom(s, mask) <==> Somewhere(s, mask)
    decreases |mask|, |s|, 1
  {
    if s != "" {
      LikeExact(s, mask);
      LikeFromExact(s[1..], mask);
      SomewhereNext(s, mask);
      if Somewhere(s, mask) {
        SomewhereFirst(s, mask);
      }
    }
  }

  /** A name is offered when it matches and the line still fits. */
  predicate Offered(s: string, name: string, split: nat, end: nat, mask: string, size: nat)
    requires split <= end <= |s|
  {
    Like(name, mask) && |s| - (end - split) + |name| + 1 < size
  }

  function NextName(s: string, names: seq<string>, split: nat, end: nat, mask: string, size: nat, k: nat): (j: nat)
    requires split <= end <= |s| && k <= |names|
    ensures k <= j <= |names| && (j < |names| ==> Offered(s, names[j], split, end, mask, size))
    ensures forall i :: k <= i < j ==> !Offered(s, names[i], split, end, mask, size)
    decreases |names| - k
  {
    if k == |names| || Offered(s, names[k], split, end, mask, size) then k else NextName(s, names, split, end, mask, size, k + 1)
  }

  /** Puts a name in the place of the text from split to end. */
  function Replace(l: Line, split: nat, end: nat, name: string): Line
    requires split <= end <= |l.text|
  {
    l.(text := l.text[..split] + name + l.text[end..], idx := split + |name|)
  }

  function Complete(l: Line, names: seq<string>, split: nat, end: nat, mask: string, size: nat): (Line, Mode)
    requires split <= end <= |l.text|
  {
    var j := NextName(l.text, names, split, end, mask, size, 0);
    if j == |names| then
      (l, Editing)
    else
      (Replace(l, split, end, names[j]), Completing(names[j + 1..], split, split + |names[j]|, mask))
  }

  lemma {:induction false} NextNameShift(s: string, names: seq<string>, split: nat, end: nat, mask: string, size: nat, k: nat)
    requires split <= end <= |s| && k < |names|
    ensures NextName(s, names, split, end, mask, size, k + 1) == NextName(s, names[1..], split, end, mask, size, k) + 1
    decreases |names| - k
  {
    if k + 1 < |names| {
      assert names[1..][k] == names[k + 1];
      if !Offered(s, names[k + 1], split, end, mask, size) {
        NextNameShift(s, names, split, end, mask, size, k + 1);
      }
    }
  }

  /** Offering the names one after the other. */
  lemma {:induction false} CompleteFirst(l: Line, names: seq<string>, split: nat, end: nat, mask: string, size: nat)
    requires split <= end <= |l.text| && names != []
    ensures Complete(l, names, split, end, mask, size) ==
      if Offered(l.text, names[0], split, end, mask, size) then
        (Replace(l, split, end, names[0]), Completing(names[1..], split, split + |names[0]|, mask))
      else
        Complete(l, names[1..], split, end, mask, size)
  {
    if !Offered(l.text, names[0], split, end, mask, size) {
      NextNameShift(l.text, names, split, end, mask, size, 0);
      var j := NextName(l.text, names[1..], split, end, mask, size, 0);
      assert j < |names[1..]| ==> names[1..][j + 1..] == names[j + 2..];
    }
  }

  function Begin(l: Line, e: Env): (Line, Mode)
    requires l.idx <= |l.text|
  {
    var start := WordStart(l.text, l.idx);
    var end := WordEnd(l.text, start);
    var split := NameStart(l.text, start, start);
    match e.dir(Path(l.text, start, split))
    case NoDir => (l, Editing)
    case Names(names) => Complete(l, names, split, end, Mask(l.text[split..end]), e.size)
  }

  function Step(l: Line, m: Mode, key: Key, e: Env): (Line, Mode)
    requires l.idx <= |l.text| < e.size && l.recall <= |e.history|
    requires m.Completing? ==> m.split <= m.end <= |l.text|
  {
    if !key.Tab? then
      (Edit(l, key, e), Editing)
    else if m.Completing? then
      Complete(l, m.names, m.split, m.end, m.mask, e.size)
    else
      Begin(l, e)
  }

  lemma {:induction false} EditFits(l: Line, key: Key, e: Env)
    requires Fits(l, e)
    ensures Fits(Edit(l, key, e), e)
  {
  }

  lemma {:induction false} CompleteFits(l: Line, names: seq<string>, split: nat, end: nat, mask: string, e: Env)
    requires Fits(l, e) && split <= end <= |l.text|
    ensures var (k, m) := Complete(l, names, split, end, mask, e.size); Fits(k, e) && Selects(m, k)
  {
  }

  /** Every key keeps the cursor inside the text and the text inside the buffer. */
  lemma {:induction false} StepFits(l: Line, m: Mode, key: Key, e: Env)
    requires Fits(l, e) && Selects(m, l)
    ensures var (k, n) := Step(l, m, key, e); Fits(k, e) && Selects(n, k)
  {
    if !key.Tab? {
      EditFits(l, key, e);
    } else if m.Completing? {
      CompleteFits(l, m.names, m.split, m.end, m.mask, e);
    } else {
      var start := WordStart(l.text, l.idx);
      var listing := e.dir(Path(l.text, start, NameStart(l.text, start, start)));
      if listing.Names? {
        var split := NameStart(l.text, start, start);
        var end := WordEnd(l.text, start);
        CompleteFits(l, listing.names, split, end, Mask(l.text[split..end]), e);
      }
    }
  }

  // ---------- whole lines ----------

  /** How a call ends: the buffer has no room at all, the input ends, the end-of-file key
      or the escape key is pressed, or the line is entered. */
  datatype Status = Invalid | Closed | AtEof | Broken | Entered

  /** What a key does to the call: nothing, or it ends it. */
  predicate Ends(l: Line, key: Key, e: Env) {
    key.Enter? || (key.Eof? && l.text == "") || (key.Esc? && e.breakOnEscape)
  }

  /** How the call ends when the keys are pressed one after the other, and the line then. */
  ghost function Run(l: Line, m: Mode, keys: seq<Key>, e: Env): (Status, Line)
    requires Fits(l, e) && Selects(m, l)
    decreases |keys|
  {
    if keys == [] then
      (Closed, l)
    else if Ends(l, keys[0], e) then
      (if keys[0].Enter? then Entered else if keys[0].Eof? then AtEof else Broken, l)
    else
      StepFits(l, m, keys[0], e);
      var (k, n) := Step(l, m, keys[0], e);
      Run(k, n, keys[1..], e)
  }

  /** The run from the search among the names on. */
  ghost function RunFrom(l: Line, names: seq<string>, split: nat, end: nat, mask: string, keys: seq<Key>, e: Env): (Status, Line)
    requires Fits(l, e) && split <= end <= |l.text|
  {
    CompleteFits(l, names, split, end, mask, e);
    var (k, m) := Complete(l, names, split, end, mask, e.size);
    Run(k, m, keys, e)
  }

  /** A tab while a name is shown goes on to the names after it. */
  lemma {:induction false} NextTab(l: Line, m: Mode, keys: seq<Key>, e: Env)
    requires Fits(l, e) && Selects(m, l) && m.Completing? && keys != [] && keys[0].Tab?
    ensures Run(l, m, keys, e) == RunFrom(l, m.names, m.split, m.end, m.mask, keys[1..], e)
  {
  }

  lemma {:induction false} SkipFirst(l: Line, name: string, rest: seq<string>, split: nat, end: nat, mask: string, keys: seq<Key>, e: Env)
    requires Fits(l, e) && split <= end <= |l.text| && !Offered(l.text, name, split, end, mask, e.size)
    ensures RunFrom(l, [name] + rest, split, end, mask, keys, e) == RunFrom(l, rest, split, end, mask, keys, e)
  {
    CompleteFirst(l, [name] + rest, split, end, mask, e.size);
    assert ([name] + rest)[1..] == rest;
  }

  /** Showing the first name that is offered, and reading the key after it. */
  lemma {:induction false} ShowFirst(l: Line, name: string, rest: seq<string>, split: nat, end: nat, mask: string, keys: seq<Key>, e: Env)
    requires Fits(l, e) && split <= end <= |l.text| && Offered(l.text, name, split, end, mask, e.size)
    ensures var k := Replace(l, split, end, name); var m := Completing(rest, split, split + |name|, mask);
            && Fits(k, e) && Selects(m, k)
            && RunFrom(l, [name] + rest, split, end, mask, keys, e) == Run(k, m, keys, e)
  {
    CompleteFirst(l, [name] + rest, split, end, mask, e.size);
    assert ([name] + rest)[1..] == rest;
  }

  lemma {:induction false} FirstTab(l: Line, keys: seq<Key>, e: Env)
    requires Fits(l, e) && keys != [] && keys[0].Tab?
    ensures var start := WordStart(l.text, l.idx);
            var end := WordEnd(l.text, start);
            var split := NameStart(l.text, start, start);
            var listing := e.dir(Path(l.text, start, split));
            Run(l, Editing, keys, e) ==
              if listing.NoDir? then Run(l, Editing, keys[1..], e)
              else RunFrom(l, listing.names, split, end, Mask(l.text[split..end]), keys[1..], e)
  {
  }

  /** Any key but a tab ends the completion. */
  lemma {:induction false} ModeUnused(l: Line, m: Mode, keys: seq<Key>, e: Env)
    requires Fits(l, e) && Selects(m, l) && keys != [] && !keys[0].Tab?
    ensures Run(l, m, keys, e) == Run(l, Editing, keys, e)
  {
  }

  /** Typing a character and taking it back restores the line. */
  lemma {:induction false} BackspaceUndoes(l: Line, c: char, e: Env)
    requires Fits(l, e) && l.insert && |l.text| + 1 < e.size && 0x20 <= c as int <= 0xFF
    ensures Edit(Edit(l, Char(c), e), Backspace, e) == l
  {
    var k := Edit(l, Char(c), e);
    assert k.text[..l.idx] == l.text[..l.idx] && k.text[l.idx + 1..] == l.text[l.idx..];
    assert l.text == l.text[..l.idx] + l.text[l.idx..];
  }

  // ---------- history ----------

  function AddHistory(h: seq<string>, line: string): seq<string> {
    if line == "" || (h != [] && h[|h| - 1] == line) then
      h
    else if |h| == MAX_HISTORY then
      h[1..] + [line]
    else
      h + [line]
  }

  ghost predicate HistoryOk(h: seq<string>) {
    && |h| <= MAX_HISTORY
    && (forall i :: 0 <= i < |h| ==> h[i] != "")
    && (forall i :: 0 < i < |h| ==> h[i] != h[i - 1])
  }

  /** The history stays bounded, without empty lines and without repeats, and ends with
      the line just added. */
  lemma {:induction false} AddHistoryOk(h: seq<string>, line: string)
    requires HistoryOk(h)
    ensures var k := AddHistory(h, line); HistoryOk(k) && (line != "" ==> k != [] && k[|k| - 1] == line)
  {
  }
}
