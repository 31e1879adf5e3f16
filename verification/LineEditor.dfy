/**
 The line editor: keys edit a buffer in place and every change is echoed to the
 terminal by hand, with characters and backspaces.
 */
module LineEditor {
  import opened LineEditing
  import opened Terminal

  class Editor {
    // kept from line to line
    var insert: bool
    const history: array<string>
    var historyLen: nat
    var term: Screen
    // what stands in front of the line on the row, and the row without it
    ghost var prompt: string
    ghost var screen: Screen
    // of the line being edited
    var buf: array<char>
    var idx: nat
    var len: nat
    var recall: nat

    ghost function State(): Line
      requires len <= buf.Length
      reads this, buf
    {
      Line(buf[..len], idx, insert, recall)
    }

    ghost function Lines(): seq<string>
      requires historyLen <= history.Length
      reads this, history
    {
      history[..historyLen]
    }

    /** The row of the terminal is the prompt and what the editor has put behind it. */
    ghost predicate Joined()
      reads this
    {
      screen.Ok() && term == screen.Behind(prompt)
    }

    /** Behind the prompt the row shows the buffer, with the cursor in its place. */
    ghost predicate Valid()
      reads this, buf, history
    {
      && idx <= len < buf.Length
      && history.Length == MAX_HISTORY && recall <= historyLen <= MAX_HISTORY
      && Printable(buf[..len])
      && Joined() && screen.Shows(buf[..len], idx)
    }

    constructor ()
      ensures history.Length == MAX_HISTORY && historyLen == 0 && insert && term == Screen("", 0)
      ensures fresh(history)
    {
      insert := true;
      history := new string[MAX_HISTORY](_ => "");
      historyLen := 0;
      term := Screen("", 0);
      buf := new char[1];
      idx, len, recall := 0, 0, 0;
    }

    // ---------- output ----------

    method PutChar(c: char)
      requires Joined() && (Glyph(c) || (c == BACKSPACE && screen.col > 0))
      modifies `screen, `term
      ensures Joined() && screen == old(screen).Put(c)
    {
      PutBehind(screen, prompt, c);
      term := term.Put(c);
      screen := screen.Put(c);
    }

    /** Emits n backspaces. */
    method Back(n: nat)
      requires Joined() && n <= screen.col
      modifies `screen, `term
      ensures Joined() && screen == old(screen).(col := old(screen).col - n)
    {
      for i := 0 to n
        invariant Joined() && screen == old(screen).(col := old(screen).col - i)
      {
        PutChar(BACKSPACE);
      }
    }

    /** Emits a part of the buffer. */
    method Echo(from: nat, to: nat)
      requires Joined() && from <= to <= buf.Length && Printable(buf[from..to])
      modifies `screen, `term
      ensures Joined() && screen == old(screen).Wrote(buf[from..to])
    {
      WroteNone(screen);
      assert buf[from..from] == [];
      for i := from to to
        invariant Joined() && screen == old(screen).Wrote(buf[from..i])
      {
        assert buf[from..to][i - from] == buf[i];
        WroteOne(old(screen), buf[from..i], buf[i]);
        assert buf[from..i] + [buf[i]] == buf[from..i + 1];
        PutChar(buf[i]);
      }
    }

    /** Emits n blanks. */
    method Blank(n: nat)
      requires Joined()
      modifies `screen, `term
      ensures Joined() && screen == old(screen).Wrote(Blanks(n))
    {
      WroteNone(screen);
      assert Blanks(0) == "";
      for i := 0 to n
        invariant Joined() && screen == old(screen).Wrote(Blanks(i))
      {
        WroteOne(old(screen), Blanks(i), ' ');
        assert Blanks(i) + [' '] == Blanks(i + 1);
        PutChar(' ');
      }
    }

    /** memmove within the buffer. */
    method Move(dst: nat, src: nat, n: nat)
      requires dst + n <= buf.Length && src + n <= buf.Length
      modifies buf
      ensures buf[..dst] == old(buf[..dst]) && buf[dst..dst + n] == old(buf[src..src + n])
      ensures buf[dst + n..] == old(buf[dst + n..])
    {
      forall k | 0 <= k < n {
        buf[dst + k] := buf[src + k];
      }
    }

    /** memcpy into the buffer. */
    method Copy(dst: nat, s: string)
      requires dst + |s| <= buf.Length
      modifies buf
      ensures buf[..dst] == old(buf[..dst]) && buf[dst..dst + |s|] == s
      ensures buf[dst + |s|..] == old(buf[dst + |s|..])
    {
      forall k | 0 <= k < |s| {
        buf[dst + k] := s[k];
      }
    }

    // ---------- moving the cursor ----------

    method StepLeft()
      requires Valid() && idx > 0
      modifies `idx, `screen, `term
      ensures Valid() && idx == old(idx) - 1
    {
      PutChar(BACKSPACE);
      idx := idx - 1;
    }

    method StepRight()
      requires Valid() && idx < len
      modifies `idx, `screen, `term
      ensures Valid() && idx == old(idx) + 1
    {
      assert buf[..len][idx] == buf[idx];
      PutChar(buf[idx]);
      idx := idx + 1;
    }

    method MoveHome()
      requires Valid()
      modifies `idx, `screen, `term
      ensures Valid() && idx == 0
    {
      while idx > 0
        invariant Valid()
      {
        StepLeft();
      }
    }

    method MoveEnd()
      requires Valid()
      modifies `idx, `screen, `term
      ensures Valid() && idx == len
    {
      while idx < len
        invariant Valid()
      {
        StepRight();
      }
    }

    method MoveWordLeft()
      requires Valid()
      modifies `idx, `screen, `term
      ensures Valid() && idx == if old(idx) > 0 then WordLeft(buf[..len], old(idx) - 1) else 0
    {
      if idx > 0 {
        StepLeft();
        ghost var from := idx;
        while idx > 0 && buf[idx - 1] != ' '
          invariant Valid() && WordLeft(buf[..len], from) == WordLeft(buf[..len], idx)
        {
          StepLeft();
        }
      }
    }

    method MoveWordRight()
      requires Valid()
      modifies `idx, `screen, `term
      ensures Valid()
      ensures idx == (var k := WordRight(buf[..len], old(idx)); if k < len then k + 1 else k)
    {
      while idx < len && buf[idx] != ' '
        invariant Valid() && WordRight(buf[..len], old(idx)) == WordRight(buf[..len], idx)
      {
        StepRight();
      }
      if idx < len {
        StepRight();
      }
    }

    // ---------- changing the text ----------

    /** Emits the text from the cursor on and then blanks, over what the row showed before. */
    method Paint(blanks: nat, ghost before: string)
      requires idx <= len <= buf.Length && Printable(buf[..len])
      requires Joined() && screen.Shows(before, idx) && buf[..idx] == before[..idx] && |before| <= len + blanks
      modifies `screen, `term
      ensures Joined() && screen.col == len + blanks
      ensures forall i: nat :: i <= len ==> screen.(col := i).Shows(buf[..len], i)
    {
      ghost var text := buf[..len];
      assert text[..idx] == buf[..idx];
      Repaint(screen, before, idx, text, blanks);
      assert buf[idx..len] == text[idx..];
      Echo(idx, len);
      Blank(blanks);
    }

    /** Takes the character under the cursor out of the buffer. */
    method TakeOut()
      requires idx < len < buf.Length
      modifies `len, buf
      ensures len == old(len) - 1
      ensures buf[..len] == old(buf[..len])[..idx] + old(buf[..len])[idx + 1..]
    {
      len := len - 1;
      Move(idx, idx + 1, len - idx);
      assert buf[..len] == buf[..idx] + buf[idx..len];
    }

    /** Puts a character into the buffer at the cursor. */
    method PutIn(c: char)
      requires idx <= len && len + 1 < buf.Length
      modifies `len, buf
      ensures len == old(len) + 1
      ensures buf[..len] == old(buf[..len])[..idx] + [c] + old(buf[..len])[idx..]
    {
      if idx < len {
        Move(idx + 1, idx, len - idx);
      }
      ghost var rest := buf[idx + 1..len + 1];
      buf[idx] := c;
      len := len + 1;
      assert buf[idx + 1..len] == rest;
      assert buf[..len] == buf[..idx] + [buf[idx]] + buf[idx + 1..len];
    }

    lemma {:induction false} Part(s: string, i: nat, j: nat)
      requires i <= j <= |s| && Printable(s)
      ensures Printable(s[..i] + s[j..])
    {
    }

    /** Deletes the character under the cursor and repaints the rest of the line. */
    method DeleteHere()
      requires Valid() && idx < len
      modifies `len, `screen, `term, buf
      ensures Valid() && State() == Delete(old(State()), old(idx))
    {
      ghost var before := buf[..len];
      Part(before, idx, idx + 1);
      TakeOut();
      assert buf[..idx] == buf[..len][..idx] == before[..idx];
      Paint(1, before);
      PutChar(BACKSPACE);
      Back(len - idx);
    }

    /** Blanks the line on the screen. */
    method ClearLine()
      requires Valid()
      modifies `screen, `term
      ensures Joined() && screen.Shows("", 0)
    {
      Back(idx);
      Repaint(screen, buf[..len], 0, "", len);
      WroteNone(screen);
      assert ""[0..] == "";
      Blank(len);
      Back(len);
    }

    method ShowHistory(k: nat)
      requires Valid() && k < historyLen && Printable(history[k])
      modifies `idx, `len, `recall, `screen, `term, buf
      ensures Valid()
      ensures State() == (var s := Clip(history[k], buf.Length); Line(s, |s|, insert, k))
    {
      ClearLine();
      recall := k;
      len := |history[k]|;
      if len > buf.Length - 1 {
        len := buf.Length - 1;
      }
      idx := len;
      ghost var s := Clip(history[k], buf.Length);
      Copy(0, history[k][..len]);
      assert buf[..len] == buf[0..len] == s;
      Repaint(screen, "", 0, s, 0);
      assert Blanks(0) == "";
      Echo(0, len);
      WroteNone(screen);
      assert s[0..] == s;
    }

    method InsertChar(c: char)
      requires Valid() && Glyph(c) && len + 1 < buf.Length
      modifies `idx, `len, `screen, `term, buf
      ensures Valid() && len == old(len) + 1 && idx == old(idx) + 1
      ensures buf[..len] == old(buf[..len])[..old(idx)] + [c] + old(buf[..len])[old(idx)..]
    {
      ghost var before := buf[..len];
      PutIn(c);
      assert buf[..idx] == buf[..len][..idx] == before[..idx];
      Paint(0, before);
      idx := idx + 1;
      Back(len - idx);
    }

    method OverwriteChar(c: char)
      requires Valid() && Glyph(c) && idx + 1 < buf.Length
      modifies `idx, `len, `screen, `term, buf
      ensures Valid() && idx == old(idx) + 1 && len == if old(idx) == old(len) then old(len) + 1 else old(len)
      ensures buf[..len] == old(buf[..len])[..old(idx)] + [c] + if old(idx) < old(len) then old(buf[..len])[old(idx) + 1..] else []
    {
      buf[idx] := c;
      PutChar(buf[idx]);
      if idx == len {
        len := len + 1;
      }
      idx := idx + 1;
    }

    method TypeChar(c: char)
      requires Valid()
      modifies `idx, `len, `screen, `term, buf
      ensures Valid() && State() == Type(old(State()), c, buf.Length)
    {
      if 0x20 <= c as int <= 0xFF {
        if insert {
          if len < buf.Length - 1 {
            InsertChar(c);
          }
        } else {
          if idx < buf.Length - 1 {
            OverwriteChar(c);
          }
        }
      }
    }

    // ---------- completion ----------

    /** Moves the cursor of the row, whose text before split is still that of the buffer. */
    method Reposition(split: nat, ghost before: string)
      requires idx <= |before| && split <= |before| && split <= buf.Length && Printable(before)
      requires Joined() && screen.Shows(before, idx) && buf[..split] == before[..split]
      modifies `idx, `screen, `term
      ensures idx == split && Joined() && screen.Shows(before, split)
    {
      while idx < split
        invariant idx <= |before| && Joined() && screen.Shows(before, idx)
      {
        assert buf[..split][idx] == before[idx];
        PutChar(buf[idx]);
        idx := idx + 1;
      }
      while idx > split
        invariant split <= idx <= |before| && Joined() && screen.Shows(before, idx)
      {
        PutChar(BACKSPACE);
        idx := idx - 1;
      }
    }

    method Substitute(split: nat, end: nat, name: string)
      requires split <= end <= len && len - (end - split) + |name| < buf.Length && len < buf.Length
      modifies `len, buf
      ensures len == old(len) - (end - split) + |name|
      ensures buf[..len] == old(buf[..len])[..split] + name + old(buf[..len])[end..]
    {
      var newlen := len - (end - split) + |name|;
      ghost var before := buf[..len];
      Move(split + |name|, end, len - end);
      assert buf[split + |name|..newlen] == before[end..];
      assert buf[..split] == before[..split] by {
        assert buf[..split] == buf[..split + |name|][..split];
      }
      Copy(split, name);
      len := newlen;
      assert buf[split + |name|..len] == before[end..] by {
        assert buf[split + |name|..len] == buf[split + |name|..][..len - split - |name|];
      }
      assert buf[..len] == buf[..split] + buf[split..split + |name|] + buf[split + |name|..len];
    }

    /** Puts a name in the place of the text from split to end and repaints. */
    method PutName(split: nat, end: nat, name: string)
      requires Valid() && split <= end <= len && Printable(name) && len - (end - split) + |name| + 1 < buf.Length
      modifies `idx, `len, `screen, `term, buf
      ensures Valid() && State() == Replace(old(State()), split, end, name)
    {
      ghost var before := buf[..len];
      var oldlen := len;
      Substitute(split, end, name);
      assert buf[..split] == buf[..len][..split] == before[..split];
      Reposition(split, before);
      var blanks := if len < oldlen then oldlen - len else 0;
      Paint(blanks, before);
      Back(blanks);
      idx := split + |name|;
      Back(len - idx);
    }

    /** The word at the cursor: where it starts, ends, and where its last component starts. */
    method FindWord() returns (start: nat, end: nat, split: nat)
      requires Valid()
      ensures start == WordStart(buf[..len], idx) && end == WordEnd(buf[..len], start)
      ensures split == NameStart(buf[..len], start, start)
    {
      ghost var s := buf[..len];
      start := idx;
      while start > 0 && !Delimiter(buf[start - 1])
        invariant start <= len && WordStart(s, start) == WordStart(s, idx)
      {
        start := start - 1;
      }
      end, split := start, start;
      while end < len && !Delimiter(buf[end])
        invariant start <= split <= end <= len && WordEnd(s, end) == WordEnd(s, start)
        invariant NameStart(s, end, split) == NameStart(s, start, start)
      {
        if Separator(buf[end]) {
          split := end + 1;
        }
        end := end + 1;
      }
    }

    /** The mask made from the text between split and end. */
    method MakeMask(split: nat, end: nat) returns (mask: string)
      requires split <= end <= buf.Length
      ensures mask == Mask(buf[split..end])
    {
      if split == end {
        return "*";
      }
      ghost var s := buf[split..end];
      var wildcards := false;
      mask := "";
      var i := split;
      while i < end
        invariant split <= i <= end && mask == s[..i - split] && wildcards == Wild(mask)
      {
        assert buf[i] == s[i - split];
        assert s[..i + 1 - split] == mask + [buf[i]];
        WildMore(mask, buf[i]);
        if buf[i] == '*' || buf[i] == '?' {
          wildcards := true;
        }
        mask := mask + [buf[i]];
        i := i + 1;
      }
      assert mask == s;
      if !wildcards {
        mask := mask + "*";
      }
    }

    // ---------- history ----------

    /** Drops the oldest line. */
    method DropOldest()
      requires history.Length == MAX_HISTORY == historyLen
      modifies `historyLen, history
      ensures historyLen == MAX_HISTORY - 1 && Lines() == old(Lines())[1..]
    {
      ghost var h := Lines();
      for i := 0 to historyLen - 1
        invariant historyLen == MAX_HISTORY
        invariant forall k :: 0 <= k < historyLen ==> history[k] == h[if k < i then k + 1 else k]
      {
        history[i] := history[i + 1];
      }
      historyLen := historyLen - 1;
    }

    method AddToHistory(line: string)
      requires history.Length == MAX_HISTORY && historyLen <= MAX_HISTORY
      modifies `historyLen, history
      ensures historyLen <= MAX_HISTORY && Lines() == AddHistory(old(Lines()), line)
    {
      if line == "" {
        return;
      }
      if historyLen > 0 && history[historyLen - 1] == line {
        return;
      }
      if historyLen == MAX_HISTORY {
        DropOldest();
      }
      history[historyLen] := line;
      historyLen := historyLen + 1;
    }

    // ---------- keys ----------

    /** A key that moves the cursor. */
    method HandleMove(key: Key, ghost e: Env)
      requires Valid() && e.history == Lines() && e.size == buf.Length && key in {Left, Right, CtrlLeft, CtrlRight, Home, End}
      modifies `idx, `screen, `term
      ensures Valid() && State() == Edit(old(State()), key, e)
    {
      match key
      case Left => if idx > 0 { StepLeft(); }
      case Right => if idx < len { StepRight(); }
      case CtrlLeft => MoveWordLeft();
      case CtrlRight => MoveWordRight();
      case Home => MoveHome();
      case End => MoveEnd();
    }

    /** A key that takes text away. */
    method HandleDelete(key: Key, ghost e: Env)
      requires Valid() && e.history == Lines() && e.size == buf.Length && key in {Del, Backspace, Esc}
      modifies `idx, `len, `screen, `term, buf
      ensures Valid() && State() == Edit(old(State()), key, e)
    {
      match key
      case Del => if idx < len { DeleteHere(); }
      case Backspace => if idx > 0 {
        StepLeft();
        DeleteHere();
      }
      case Esc =>
        ClearLine();
        idx, len := 0, 0;
    }

    /** A key that recalls a line. */
    method HandleRecall(key: Key, ghost e: Env)
      requires Valid() && e.history == Lines() && e.size == buf.Length && Clean(e) && key in {Up, Down}
      modifies `idx, `len, `recall, `screen, `term, buf
      ensures Valid() && State() == Edit(old(State()), key, e)
    {
      if key.Up? {
        if recall > 0 {
          assert e.history[recall - 1] == history[recall - 1];
          ShowHistory(recall - 1);
        }
      } else if recall + 1 < historyLen {
        assert e.history[recall + 1] == history[recall + 1];
        ShowHistory(recall + 1);
      }
    }

    /** A key that edits the line. */
    method Handle(key: Key, ghost e: Env)
      requires Valid() && e.history == Lines() && e.size == buf.Length && Clean(e)
      modifies `idx, `len, `insert, `recall, `screen, `term, buf
      ensures Valid() && State() == Edit(old(State()), key, e)
    {
      if key in {Left, Right, CtrlLeft, CtrlRight, Home, End} {
        HandleMove(key, e);
      } else if key in {Del, Backspace, Esc} {
        HandleDelete(key, e);
      } else if key in {Up, Down} {
        HandleRecall(key, e);
      } else if key.Ins? {
        insert := !insert;
      } else if key.Char? {
        TypeChar(key.c);
      }
    }

    ghost predicate In(e: Env)
      reads this, buf, history
    {
      Valid() && e.history == Lines() && e.size == buf.Length && Clean(e)
    }

    /** What remains of the run r when the keys up to pos have been read: nothing if the
        input ended, and the key itself unless it is a tab. */
    ghost predicate Remains(r: (Status, Line), keys: seq<Key>, pos: nat, key: Key, closed: bool, e: Env)
      requires In(e) && pos <= |keys|
      reads this, buf, history
    {
      if closed then r == (Closed, State())
      else if key.Tab? then r == Run(State(), Editing, keys[pos..], e)
      else 0 < pos && key == keys[pos - 1] && r == Run(State(), Editing, keys[pos - 1..], e)
    }

    /** What remains of the run r while names are still to be offered. */
    ghost predicate Offering(r: (Status, Line), names: seq<string>, split: nat, end: nat, mask: string,
                             keys: seq<Key>, pos: nat, key: Key, closed: bool, e: Env)
      requires In(e) && split <= end <= len && pos <= |keys|
      reads this, buf, history
    {
      if !closed && key.Tab? then r == RunFrom(State(), names, split, end, mask, keys[pos..], e)
      else Remains(r, keys, pos, key, closed, e)
    }

    /** Reads the key after a name has been shown. */
    method NextKey(ghost m: Mode, keys: seq<Key>, from: nat, ghost r: (Status, Line), ghost e: Env) returns (pos: nat, key: Key, closed: bool)
      requires In(e) && m.Completing? && Selects(m, State()) && from <= |keys| && r == Run(State(), m, keys[from..], e)
      ensures from <= pos <= |keys| && Offering(r, m.names, m.split, m.end, m.mask, keys, pos, key, closed, e)
    {
      pos, key, closed := from, Tab, from == |keys|;
      if !closed {
        key := keys[pos];
        pos := pos + 1;
        assert keys[from..][1..] == keys[pos..];
        if key.Tab? {
          NextTab(State(), m, keys[from..], e);
        } else {
          ModeUnused(State(), m, keys[from..], e);
        }
      }
    }

    /** Shows a name and reads the key after it. */
    method Show(name: string, ghost rest: seq<string>, split: nat, word: nat, ghost mask: string, keys: seq<Key>, from: nat,
                ghost r: (Status, Line), ghost e: Env)
      returns (end: nat, pos: nat, key: Key, closed: bool)
      requires In(e) && split <= word <= len && from <= |keys| && Printable(name)
      requires Offered(buf[..len], name, split, word, mask, buf.Length)
      requires Offering(r, [name] + rest, split, word, mask, keys, from, Tab, false, e)
      modifies `idx, `len, `screen, `term, buf
      ensures In(e) && split <= end <= len && from <= pos <= |keys|
      ensures Offering(r, rest, split, end, mask, keys, pos, key, closed, e)
    {
      ShowFirst(State(), name, rest, split, word, mask, keys[from..], e);
      PutName(split, word, name);
      end := split + |name|;
      pos, key, closed := NextKey(Completing(rest, split, split + |name|, mask), keys, from, r, e);
    }

    /** Whether a name matches and the line still fits with it. */
    method IsOffered(name: string, split: nat, word: nat, mask: string) returns (r: bool)
      requires split <= word <= len < buf.Length
      ensures r == Offered(buf[..len], name, split, word, mask, buf.Length)
    {
      r := LikeName(name, mask);
      r := r && len - (word - split) + |name| < buf.Length - 1;
    }

    /** A name that is not offered is passed over. */
    method PassOver(ghost name: string, ghost rest: seq<string>, split: nat, word: nat, ghost mask: string, keys: seq<Key>, from: nat,
                    ghost r: (Status, Line), ghost e: Env)
      returns (end: nat, pos: nat, key: Key, closed: bool)
      requires In(e) && split <= word <= len && from <= |keys|
      requires !Offered(buf[..len], name, split, word, mask, buf.Length)
      requires Offering(r, [name] + rest, split, word, mask, keys, from, Tab, false, e)
      ensures split <= end <= len && from <= pos <= |keys|
      ensures Offering(r, rest, split, end, mask, keys, pos, key, closed, e)
    {
      SkipFirst(State(), name, rest, split, word, mask, keys[from..], e);
      end, pos, key, closed := word, from, Tab, false;
    }

    /** Offers one name. */
    method OfferOne(name: string, ghost rest: seq<string>, split: nat, word: nat, mask: string, keys: seq<Key>, from: nat,
                    ghost r: (Status, Line), ghost e: Env)
      returns (end: nat, pos: nat, key: Key, closed: bool)
      requires In(e) && split <= word <= len && from <= |keys| && Printable(name)
      requires Offering(r, [name] + rest, split, word, mask, keys, from, Tab, false, e)
      modifies `idx, `len, `screen, `term, buf
      ensures In(e) && split <= end <= len && from <= pos <= |keys|
      ensures Offering(r, rest, split, end, mask, keys, pos, key, closed, e)
    {
      var offered := IsOffered(name, split, word, mask);
      if offered {
        end, pos, key, closed := Show(name, rest, split, word, mask, keys, from, r, e);
      } else {
        end, pos, key, closed := PassOver(name, rest, split, word, mask, keys, from, r, e);
      }
    }

    /** Offers one name after the other for as long as the key pressed is a tab. Says which
        key was pressed last, and whether the input ended instead. */
    method Offer(names: seq<string>, split: nat, word: nat, mask: string, keys: seq<Key>, from: nat, ghost e: Env)
      returns (pos: nat, key: Key, closed: bool)
      requires In(e) && split <= word <= len && from <= |keys|
      requires forall i :: 0 <= i < |names| ==> Printable(names[i])
      modifies `idx, `len, `screen, `term, buf
      ensures In(e) && from <= pos <= |keys|
      ensures Remains(old(RunFrom(State(), names, split, word, mask, keys[from..], e)), keys, pos, key, closed, e)
    {
      ghost var r := RunFrom(State(), names, split, word, mask, keys[from..], e);
      var k, end := 0, word;
      pos, key, closed := from, Tab, false;
      while k < |names| && key.Tab? && !closed
        invariant In(e) && split <= end <= len && from <= pos <= |keys| && k <= |names|
        invariant Offering(r, names[k..], split, end, mask, keys, pos, key, closed, e)
        decreases |names| - k
      {
        assert [names[k]] + names[k + 1..] == names[k..];
        end, pos, key, closed := OfferOne(names[k], names[k + 1..], split, end, mask, keys, pos, r, e);
        k := k + 1;
      }
    }

    /** The directory of the word. */
    method PathOf(start: nat, split: nat) returns (path: string)
      requires start <= split <= len <= buf.Length
      ensures path == Path(buf[..len], start, split)
    {
      path := if start == split then "." else buf[start..split];
      assert buf[start..split] == buf[..len][start..split];
    }

    /** The tab key: completes the word at the cursor. */
    method CompleteWord(dir: string -> Listing, keys: seq<Key>, from: nat, ghost e: Env)
      returns (pos: nat, key: Key, closed: bool)
      requires In(e) && e.dir == dir && 0 < from <= |keys| && keys[from - 1].Tab?
      modifies `idx, `len, `screen, `term, buf
      ensures In(e) && from <= pos <= |keys|
      ensures Remains(old(Run(State(), Editing, keys[from - 1..], e)), keys, pos, key, closed, e)
    {
      FirstTab(State(), keys[from - 1..], e);
      assert keys[from - 1..][1..] == keys[from..];
      var start, end, split := FindWord();
      var path := PathOf(start, split);
      match dir(path)
      case NoDir =>
        pos, key, closed := from, Tab, false;
      case Names(names) =>
        var mask := MakeMask(split, end);
        assert buf[split..end] == buf[..len][split..end];
        pos, key, closed := Offer(names, split, end, mask, keys, from, e);
    }

    /** Reads the next key, and completes a word if it is a tab. */
    method ReadKey(dir: string -> Listing, keys: seq<Key>, from: nat, ghost e: Env) returns (pos: nat, key: Key, closed: bool)
      requires In(e) && e.dir == dir && from < |keys|
      modifies `idx, `len, `screen, `term, buf
      ensures In(e) && from < pos <= |keys|
      ensures Remains(old(Run(State(), Editing, keys[from..], e)), keys, pos, key, closed, e)
    {
      pos, key, closed := from + 1, keys[from], false;
      if key.Tab? {
        pos, key, closed := CompleteWord(dir, keys, pos, e);
      }
    }

    /** A key other than a tab ends the call or edits the line. */
    method Press(key: Key, breakOnEscape: bool, ghost keys: seq<Key>, ghost pos: nat, ghost r: (Status, Line), ghost e: Env)
      returns (done: bool, status: Status)
      requires In(e) && e.breakOnEscape == breakOnEscape && pos <= |keys| && !key.Tab? && Remains(r, keys, pos, key, false, e)
      modifies `idx, `len, `insert, `recall, `screen, `term, buf
      ensures In(e) && if done then r == (status, State()) else r == Run(State(), Editing, keys[pos..], e)
    {
      assert keys[pos - 1..][1..] == keys[pos..];
      done := key.Enter? || (key.Eof? && len == 0) || (key.Esc? && breakOnEscape);
      status := if key.Enter? then Entered else if key.Eof? then AtEof else Broken;
      if !done {
        Handle(key, e);
      }
    }

    /** The keys edit the buffer until one of them ends the call. */
    method EditLine(dir: string -> Listing, breakOnEscape: bool, keys: seq<Key>, ghost e: Env) returns (status: Status)
      requires In(e) && e.dir == dir && e.breakOnEscape == breakOnEscape
      modifies `idx, `len, `insert, `recall, `screen, `term, buf
      ensures In(e) && (status, State()) == old(Run(State(), Editing, keys, e))
    {
      ghost var r := Run(State(), Editing, keys, e);
      var pos := 0;
      assert keys[0..] == keys;
      while pos < |keys|
        invariant In(e) && pos <= |keys| && r == Run(State(), Editing, keys[pos..], e)
        decreases |keys| - pos
      {
        var key, closed;
        pos, key, closed := ReadKey(dir, keys, pos, e);
        if closed {
          return Closed;
        }
        if !key.Tab? {
          var done;
          done, status := Press(key, breakOnEscape, keys, pos, r, e);
          if done {
            return;
          }
        }
      }
      return Closed;
    }

    /** Reads a line into a buffer, behind what the row shows up to the cursor, and keeps it
        in the history. */
    method ReadLine(line: array<char>, dir: string -> Listing, breakOnEscape: bool, keys: seq<Key>)
      returns (status: Status, result: int)
      requires history.Length == MAX_HISTORY && historyLen <= MAX_HISTORY && term.Ok() && term.Shows(term.row[..term.col], term.col)
      requires Clean(Env(Lines(), line.Length, dir, breakOnEscape))
      modifies this, line, history
      ensures historyLen <= MAX_HISTORY
      ensures line.Length == 0 ==> status == Invalid && result == -1
      ensures line.Length > 0 ==>
        var e := Env(old(Lines()), line.Length, dir, breakOnEscape);
        var (end, last) := Run(Line("", 0, old(insert), old(historyLen)), Editing, keys, e);
        && status == end && result == (if end.Entered? then |last.text| else -1)
        && last.text <= line[..] && |last.text| < line.Length
        && (end.Entered? || end.Broken? ==> line[|last.text|] == '\0')
        && (end.Entered? ==> term == Screen("", 0) && Lines() == AddHistory(old(Lines()), last.text))
        && (!end.Entered? ==> term.Shows(old(term.row[..term.col]) + last.text, old(term.col) + last.idx) && Lines() == old(Lines()))
    {
      if line.Length == 0 {
        return Invalid, -1;
      }
      ghost var e := Env(Lines(), line.Length, dir, breakOnEscape);
      buf := line;
      idx, len, recall := 0, 0, historyLen;
      prompt, screen := term.row[..term.col], Screen(term.row[term.col..], 0);
      assert term == screen.Behind(prompt);
      assert buf[..0] == "";
      status := EditLine(dir, breakOnEscape, keys, e);
      result := -1;
      ShowsBehind(screen, prompt, buf[..len], idx);
      if status.Broken? {
        Terminate();
      } else if status.Entered? {
        term := term.Put('\r');
        term := term.Put('\n');
        Terminate();
        AddToHistory(buf[..len]);
        result := len;
      }
    }

    method Terminate()
      requires len < buf.Length
      modifies buf
      ensures buf[..len] == old(buf[..len]) && buf[len] == '\0'
    {
      buf[len] := '\0';
    }
  }

  lemma {:induction false} WildMore(s: string, c: char)
    ensures Wild(s + [c]) <==> Wild(s) || c == '*' || c == '?'
  {
    var t := s + [c];
    if i :| 0 <= i < |s| && (s[i] == '*' || s[i] == '?') {
      assert t[i] == s[i];
    }
    if c == '*' || c == '?' {
      assert t[|s|] == c;
    }
  }

  /** Matches a name against a mask. */
  method LikeName(name: string, mask: string) returns (r: bool)
    ensures r == Like(name, mask)
    decreases |mask|
  {
    var i, j := 0, 0;
    while j < |mask|
      invariant i <= |name| && j <= |mask| && Like(name, mask) == Like(name[i..], mask[j..])
      decreases |mask| - j
    {
      if mask[j] == '*' {
        r := LikeStar(name[i..], mask[j..]);
        return;
      } else if i < |name| && (mask[j] == name[i] || mask[j] == '?') {
        assert name[i..][1..] == name[i + 1..] && mask[j..][1..] == mask[j + 1..];
        i, j := i + 1, j + 1;
      } else {
        return false;
      }
    }
    r := i == |name|;
  }

  method LikeStar(name: string, mask: string) returns (r: bool)
    requires mask != "" && mask[0] == '*'
    ensures r == Like(name, mask)
    decreases |mask|, 0
  {
    var j := 0;
    while j < |mask| && mask[j] == '*'
      invariant j <= |mask| && SkipStars(mask) == SkipStars(mask[j..]) && (j == 0 ==> mask[0] == '*')
    {
      assert mask[j..][1..] == mask[j + 1..];
      j := j + 1;
    }
    var rest := mask[j..];
    assert rest == SkipStars(mask);
    if j == |mask| {
      return true;
    }
    var i := 0;
    while i < |name|
      invariant i <= |name| && LikeFrom(name, rest) == LikeFrom(name[i..], rest)
    {
      var found := LikeName(name[i..], rest);
      if found {
        return true;
      }
      assert name[i..][1..] == name[i + 1..];
      i := i + 1;
    }
    r := false;
  }
}
