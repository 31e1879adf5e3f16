/** One row of a terminal, as far as the line editor writes to it. */
module Terminal {

  const BACKSPACE: char := '\U{0008}'

  /** The cells written so far, everything beyond them being blank, and the cursor. */
  datatype Screen = Screen(row: string, col: nat) {
    predicate Ok() {
      col <= |row|
    }

    /** The effect of one character sent to the terminal. */
    function Put(c: char): (s: Screen)
      requires Ok()
      ensures s.Ok()
    {
      if c == BACKSPACE then Screen(row, if col > 0 then col - 1 else 0)
      else if c == '\r' then Screen(row, 0)
      else if c == '\n' then Screen(Blanks(col), col)
      else if col < |row| then Screen(row[col := c], col + 1)
      else Screen(row + [c], col + 1)
    }

    /** The effect of a text sent to the terminal. */
    function Wrote(s: string): Screen
      requires Ok()
    {
      Screen(row[..col] + s + if col + |s| <= |row| then row[col + |s|..] else "", col + |s|)
    }

    /** The same cells behind a prompt. */
    function Behind(prompt: string): Screen {
      Screen(prompt + row, |prompt| + col)
    }

    /** The row shows the text and nothing else, with the cursor at idx. */
    ghost predicate Shows(text: string, idx: nat) {
      && col == idx && idx <= |text| && text <= row
      && forall i :: |text| <= i < |row| ==> row[i] == ' '
    }
  }

  function Blanks(n: nat): (s: string)
    ensures |s| == n && forall i :: 0 <= i < n ==> s[i] == ' '
  {
    seq(n, _ => ' ')
  }

  /** A character put behind the prompt leaves the prompt alone. */
  lemma {:induction false} PutBehind(sc: Screen, prompt: string, c: char)
    requires sc.Ok() && (' ' <= c || (c == BACKSPACE && sc.col > 0))
    ensures sc.Behind(prompt).Ok() && sc.Behind(prompt).Put(c) == sc.Put(c).Behind(prompt)
  {
  }

  lemma {:induction false} ShowsBehind(sc: Screen, prompt: string, text: string, idx: nat)
    requires sc.Shows(text, idx)
    ensures sc.Behind(prompt).Shows(prompt + text, |prompt| + idx)
  {
    assert (prompt + sc.row)[|prompt|..] == sc.row;
    forall i | |prompt + text| <= i < |prompt + sc.row| ensures (prompt + sc.row)[i] == ' ' {
      assert (prompt + sc.row)[i] == sc.row[i - |prompt|];
    }
  }

  lemma {:induction false} WroteOne(sc: Screen, s: string, c: char)
    requires sc.Ok() && ' ' <= c
    ensures sc.Wrote(s).Ok() && sc.Wrote(s).Put(c) == sc.Wrote(s + [c])
  {
  }

  lemma {:induction false} WroteNone(sc: Screen)
    requires sc.Ok()
    ensures sc.Wrote("") == sc
  {
    assert sc.row[..sc.col] + "" + sc.row[sc.col..] == sc.row;
  }

  /** Writing the new text from p on and blanking what the old one had beyond it. */
  lemma {:induction false} Repaint(sc: Screen, text: string, p: nat, next: string, blanks: nat)
    requires sc.Shows(text, p) && p <= |next| && next[..p] == text[..p] && |text| <= |next| + blanks
    ensures sc.Wrote(next[p..]).Ok()
    ensures var after := sc.Wrote(next[p..]).Wrote(Blanks(blanks));
            after.col == |next| + blanks && forall i: nat :: i <= |next| ==> after.(col := i).Shows(next, i)
  {
    var after := sc.Wrote(next[p..]).Wrote(Blanks(blanks));
    assert sc.row[..p] == next[..p];
    assert next == next[..p] + next[p..];
    assert after.row[..|next|] == next;
  }
}
