/** What a property file means, line by line, whatever blanks and line ends it is written with. */
module PropertyFormat {
  import opened Options
  import opened PropertySpec
  import opened PropertyRoundTrip

  predicate Blanks(s: string) {
    forall i :: 0 <= i < |s| ==> Blank(s[i])
  }

  /** A comment, a blank line, the head of a section with blanks behind its name, and a
      property with blanks before and after the separator and behind the value. An empty value
      is absent. Without a separator there is only the name. */
  datatype Item =
    | Comment(mark: char, text: string)
    | BlankLine
    | Head(title: string, after: string)
    | Pair(name: string, left: string, sep: char, right: string, value: string, trail: string)
    | Lone(name: string, trail: string)

  predicate WellFormed(x: Item) {
    match x
    case Comment(mark, text) => (mark == '#' || mark == ';') && Without(text, Eol)
    case BlankLine => true
    case Head(title, after) => SectionName(title) && Blanks(after)
    case Pair(name, left, sep, right, value, trail) =>
      && PropertyName(name) && (value == "" || Value(value)) && (sep == '=' || sep == ':')
      && Blanks(left) && Blanks(right) && Blanks(trail)
    case Lone(name, trail) => PropertyName(name) && Blanks(trail)
  }

  function Text(x: Item): string {
    match x
    case Comment(mark, text) => [mark] + text
    case BlankLine => ""
    case Head(title, after) => "[" + title + after + "]"
    case Pair(name, left, sep, right, value, trail) => (name + left) + ([sep] + (right + (value + trail)))
    case Lone(name, trail) => name + trail
  }

  /** What the line adds to the sections read so far. */
  function Meaning(x: Item, sections: seq<Section>): seq<Section> {
    match x
    case Comment(_, _) => sections
    case BlankLine => sections
    case Head(title, _) => sections + [Section(Some(title), [])]
    case Pair(name, _, _, _, value, _) => AddProperty(sections, Property(Some(name), if value == "" then None else Some(value)))
    case Lone(name, _) => AddProperty(sections, Property(Some(name), None))
  }

  /** A line: blanks, an item and an end of line. */
  datatype Line = Line(indent: string, item: Item, eol: string)

  predicate GoodLine(l: Line) {
    Blanks(l.indent) && WellFormed(l.item) && (l.eol == "\n" || l.eol == "\r\n")
  }

  function Written(lines: seq<Line>): string {
    if lines == [] then "" else lines[0].indent + (Text(lines[0].item) + (lines[0].eol + Written(lines[1..])))
  }

  function Meant(lines: seq<Line>, sections: seq<Section>): seq<Section> {
    if lines == [] then sections else Meant(lines[1..], Meaning(lines[0].item, sections))
  }

  // ---------- blanks ----------

  /** What is left is the longest part that does not end in a blank. */
  lemma {:induction false} DropTrail(s: string, t: string)
    requires (s == "" || Tight(s)) && Blanks(t)
    ensures DropBlanks(s + t) == s
    decreases |t|
  {
    if t == "" {
      assert s + t == s;
    } else {
      assert (s + t)[..|s + t| - 1] == s + t[..|t| - 1];
      DropTrail(s, t[..|t| - 1]);
    }
  }

  lemma {:induction false} SkipLead(b: string, s: string)
    requires Blanks(b)
    ensures SkipBlanks(b + s) == SkipBlanks(s)
    decreases |b|
  {
    if b == "" {
      assert b + s == s;
    } else {
      assert (b + s)[1..] == b[1..] + s;
      SkipLead(b[1..], s);
    }
  }

  lemma {:induction false} SkipIndent(b: string, s: string, sections: seq<Section>)
    requires Blanks(b)
    ensures Parse(b + s, sections) == Parse(s, sections)
  {
    SkipLead(b, s);
  }

  lemma {:induction false} TrimTrail(s: string, t: string)
    requires Plain(s) && Tight(s) && Blanks(t)
    ensures Trim(s + t) == Some(s)
  {
    DropTrail(s, t);
    UnescapePlain(s);
  }

  // ---------- one line ----------

  lemma {:induction false} SkipsEol(eol: string, t: string)
    requires eol == "\n" || eol == "\r\n"
    ensures SkipEol(eol + t) == t && Eol((eol + t)[0])
  {
    if eol == "\n" {
      assert (eol + t)[1..] == t;
    } else {
      assert (eol + t)[1..][1..] == t;
    }
  }

  lemma {:induction false} ReadComment(mark: char, text: string, eol: string, t: string, sections: seq<Section>)
    requires (mark == '#' || mark == ';') && Without(text, Eol) && (eol == "\n" || eol == "\r\n")
    ensures Parse(([mark] + text) + (eol + t), sections) == Parse(t, sections)
  {
    var line := [mark] + text;
    var s := line + (eol + t);
    SkipsEol(eol, t);
    UpToAt(s, |line|, Eol);
    assert s[|line|..] == eol + t;
  }

  lemma {:induction false} ReadEnd(eol: string, t: string, sections: seq<Section>)
    requires eol == "\n" || eol == "\r\n"
    ensures Parse(eol + t, sections) == Parse(t, sections)
  {
    SkipsEol(eol, t);
  }

  lemma {:induction false} ReadHead(title: string, after: string, eol: string, t: string, sections: seq<Section>)
    requires SectionName(title) && Blanks(after) && (eol == "\n" || eol == "\r\n")
    ensures Parse(("[" + title + after + "]") + (eol + t), sections) == Parse(t, sections + [Section(Some(title), [])])
  {
    var inside := title + after;
    var s := ("[" + title + after + "]") + (eol + t);
    assert s[1..] == inside + ("]" + (eol + t));
    UpToAt(s[1..], |inside|, Close);
    assert s[1..][..|inside|] == inside;
    TrimTrail(title, after);
    assert s[1 + |inside|..] == "]" + (eol + t);
    assert ("]" + (eol + t))[1..] == eol + t;
    assert Step(s, sections) == (eol + t, sections + [Section(Some(title), [])]);
    ReadEnd(eol, t, sections + [Section(Some(title), [])]);
  }

  /** A line that is neither a comment nor the head of a section is a property. */
  lemma {:induction false} ReadLine(line: string, eol: string, t: string, sections: seq<Section>)
    requires StartsProperty(line) && (eol == "\n" || eol == "\r\n")
    ensures Parse(line + (eol + t), sections) == Parse(t, AddProperty(sections, ParseLine(line)))
  {
    var s := line + (eol + t);
    assert s[0] == line[0];
    SkipsEol(eol, t);
    UpToAt(s, |line|, Eol);
    assert s[..|line|] == line && s[|line|..] == eol + t;
  }

  lemma {:induction false} ParsePair(name: string, left: string, sep: char, rest: string)
    requires PropertyName(name) && Blanks(left) && Separator(sep)
    ensures ParseLine((name + left) + ([sep] + rest)) == Property(Some(name), Trim(SkipBlanks(rest)))
  {
    var line := (name + left) + ([sep] + rest);
    UpToAt(line, |name + left|, Separator);
    assert line[..|name + left|] == name + left;
    assert line[|name + left| + 1..] == rest;
    TrimTrail(name, left);
  }

  lemma {:induction false} TrimValue(right: string, value: string, trail: string)
    requires (value == "" || Value(value)) && Blanks(right) && Blanks(trail)
    ensures Trim(SkipBlanks(right + (value + trail))) == if value == "" then None else Some(value)
  {
    SkipLead(right, value + trail);
    if value == "" {
      assert value + trail == trail;
      SkipLead(trail, "");
      assert trail + "" == trail;
    } else {
      assert (value + trail)[0] == value[0];
      TrimTrail(value, trail);
    }
  }

  lemma {:induction false} ParseLone(name: string, trail: string)
    requires PropertyName(name) && Blanks(trail)
    ensures ParseLine(name + trail) == Property(Some(name), None)
  {
    UpToAt(name + trail, |name + trail|, Separator);
    TrimTrail(name, trail);
  }

  lemma {:induction false} BlanksInLine(s: string)
    requires Blanks(s)
    ensures Without(s, Eol)
  {
  }

  lemma {:induction false} Together(a: string, b: string)
    requires Without(a, Eol) && Without(b, Eol)
    ensures Without(a + b, Eol)
  {
  }

  /** A line that starts with the name of a property. */
  predicate StartsProperty(line: string) {
    line != "" && Without(line, Eol) && !Blank(line[0]) && line[0] !in {'#', ';', '['}
  }

  lemma {:induction false} NameFirst(name: string, rest: string)
    requires PropertyName(name) && Without(rest, Eol)
    ensures StartsProperty(name + rest)
  {
    Together(name, rest);
    assert (name + rest)[0] == name[0];
  }

  lemma {:induction false} PairLine(name: string, left: string, sep: char, right: string, value: string, trail: string)
    requires WellFormed(Pair(name, left, sep, right, value, trail))
    ensures StartsProperty(Text(Pair(name, left, sep, right, value, trail)))
  {
    BlanksInLine(left);
    BlanksInLine(right);
    BlanksInLine(trail);
    Together(value, trail);
    Together(right, value + trail);
    Together([sep], right + (value + trail));
    Together(left, [sep] + (right + (value + trail)));
    NameFirst(name, left + ([sep] + (right + (value + trail))));
    assert name + (left + ([sep] + (right + (value + trail)))) == (name + left) + ([sep] + (right + (value + trail)));
  }

  lemma {:induction false} ReadPair(name: string, left: string, sep: char, right: string, value: string, trail: string,
                                    eol: string, t: string, sections: seq<Section>)
    requires WellFormed(Pair(name, left, sep, right, value, trail)) && (eol == "\n" || eol == "\r\n")
    ensures var x := Pair(name, left, sep, right, value, trail); Parse(Text(x) + (eol + t), sections) == Parse(t, Meaning(x, sections))
  {
    PairLine(name, left, sep, right, value, trail);
    ParsePair(name, left, sep, right + (value + trail));
    TrimValue(right, value, trail);
    ReadLine(Text(Pair(name, left, sep, right, value, trail)), eol, t, sections);
  }

  lemma {:induction false} ReadLone(name: string, trail: string, eol: string, t: string, sections: seq<Section>)
    requires PropertyName(name) && Blanks(trail) && (eol == "\n" || eol == "\r\n")
    ensures Parse((name + trail) + (eol + t), sections) == Parse(t, AddProperty(sections, Property(Some(name), None)))
  {
    BlanksInLine(trail);
    NameFirst(name, trail);
    ParseLone(name, trail);
    ReadLine(name + trail, eol, t, sections);
  }

  lemma {:induction false} ReadItem(x: Item, eol: string, t: string, sections: seq<Section>)
    requires WellFormed(x) && (eol == "\n" || eol == "\r\n")
    ensures Parse(Text(x) + (eol + t), sections) == Parse(t, Meaning(x, sections))
  {
    match x
    case Comment(mark, text) => ReadComment(mark, text, eol, t, sections);
    case BlankLine =>
      assert "" + (eol + t) == eol + t;
      ReadEnd(eol, t, sections);
    case Head(title, after) => ReadHead(title, after, eol, t, sections);
    case Pair(name, left, sep, right, value, trail) => ReadPair(name, left, sep, right, value, trail, eol, t, sections);
    case Lone(name, trail) => ReadLone(name, trail, eol, t, sections);
  }

  /** A text of such lines is read as what the lines mean. */
  lemma {:induction false} ReadLines(lines: seq<Line>, sections: seq<Section>)
    requires forall i :: 0 <= i < |lines| ==> GoodLine(lines[i])
    ensures Parse(Written(lines), sections) == Meant(lines, sections)
    decreases |lines|
  {
    if lines != [] {
      var l, t := lines[0], Written(lines[1..]);
      SkipIndent(l.indent, Text(l.item) + (l.eol + t), sections);
      ReadItem(l.item, l.eol, t, sections);
      ReadLines(lines[1..], Meaning(l.item, sections));
    }
  }

  // ---------- escapes ----------

  function Hex(n: nat): char
    requires n < 16
  {
    if n < 10 then ('0' as int + n) as char else ('a' as int + n - 10) as char
  }

  /** Every character as a circumflex and two hexadecimal digits. */
  function Escaped(s: string): string
    requires forall i :: 0 <= i < |s| ==> s[i] as int < 256
  {
    if s == "" then "" else ['^', Hex(s[0] as int / 16), Hex(s[0] as int % 16)] + Escaped(s[1..])
  }

  lemma {:induction false} HexDigit(n: nat)
    requires n < 16
    ensures Digit(Hex(n)) == Some(n)
  {
  }

  /** Escapes give the characters back. */
  lemma {:induction false} EscapedBack(s: string)
    requires forall i :: 0 <= i < |s| ==> s[i] as int < 256
    ensures Unescape(Escaped(s)) == s
    decreases |s|
  {
    if s != "" {
      var c := s[0] as int;
      var e := Escaped(s);
      HexDigit(c / 16);
      HexDigit(c % 16);
      assert e[1..][2..] == Escaped(s[1..]);
      EscapedBack(s[1..]);
      assert [s[0]] + s[1..] == s;
    }
  }
}
