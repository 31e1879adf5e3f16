/**
 Property files: what a text stands for, and how sections are written out.
 */
module PropertySpec {
  import opened Options

  /** A name or value is absent when nothing is left of its text. */
  datatype Property = Property(name: Option<string>, value: Option<string>)

  datatype Section = Section(name: Option<string>, properties: seq<Property>)

  predicate Blank(c: char) {
    c == ' ' || c == '\t'
  }

  predicate Eol(c: char) {
    c == '\r' || c == '\n'
  }

  // ---------- trimming ----------

  function DropBlanks(s: string): string {
    if s != "" && Blank(s[|s| - 1]) then DropBlanks(s[..|s| - 1]) else s
  }

  function SkipBlanks(s: string): (r: string)
    ensures |r| <= |s| && (r == "" || !Blank(r[0]))
  {
    if s != "" && Blank(s[0]) then SkipBlanks(s[1..]) else s
  }

  /** The value of a hexadecimal digit. */
  function Digit(c: char): Option<nat> {
    if '0' <= c <= '9' then Some(c as int - '0' as int)
    else if 'A' <= c <= 'F' then Some(c as int - 'A' as int + 10)
    else if 'a' <= c <= 'f' then Some(c as int - 'a' as int + 10)
    else None
  }

  /** The character given by up to two digits, and the text after them. */
  function Escape(s: string): (r: (nat, string))
    ensures r.0 < 256 && |r.1| <= |s|
  {
    if s == "" || Digit(s[0]).None? then (0, s)
    else if |s| == 1 || Digit(s[1]).None? then (Digit(s[0]).value, s[1..])
    else (16 * Digit(s[0]).value + Digit(s[1]).value, s[2..])
  }

  /** Replaces circumflexes and digits by the characters they stand for. */
  function Unescape(s: string): string
    decreases |s|
  {
    if s == "" then ""
    else if s[0] != '^' then [s[0]] + Unescape(s[1..])
    else
      var (c, rest) := Escape(s[1..]);
      [c as char] + Unescape(rest)
  }

  function Trim(s: string): Option<string> {
    var t := DropBlanks(s);
    if t == "" then None else Some(Unescape(t))
  }

  predicate Plain(s: string) {
    forall i :: 0 <= i < |s| ==> s[i] != '^'
  }

  lemma {:induction false} UnescapePlain(s: string)
    requires Plain(s)
    ensures Unescape(s) == s
  {
    if s != "" {
      UnescapePlain(s[1..]);
      assert s == [s[0]] + s[1..];
    }
  }

  // ---------- lines ----------

  /** The text up to a character from a set of characters, or all of it. */
  function UpTo(s: string, stop: char -> bool): (n: nat)
    ensures n <= |s| && (n < |s| ==> stop(s[n])) && forall i :: 0 <= i < n ==> !stop(s[i])
  {
    if s == "" || stop(s[0]) then 0 else 1 + UpTo(s[1..], stop)
  }

  function SkipEol(s: string): (r: string)
    ensures |r| <= |s| && (s != "" && Eol(s[0]) ==> |r| < |s|)
  {
    var t := if s != "" && s[0] == '\r' then s[1..] else s;
    if t != "" && t[0] == '\n' then t[1..] else t
  }

  predicate Close(c: char) {
    c == ']'
  }

  predicate Separator(c: char) {
    c == '=' || c == ':'
  }

  function ParseLine(line: string): Property {
    var n := UpTo(line, Separator);
    if n == |line| then Property(Trim(line), None) else Property(Trim(line[..n]), Trim(SkipBlanks(line[n + 1..])))
  }

  /** A property belongs to the last section; before the first section it is dropped. */
  function AddProperty(sections: seq<Section>, p: Property): seq<Section> {
    if sections == [] then
      []
    else
      var last := sections[|sections| - 1];
      sections[|sections| - 1 := last.(properties := last.properties + [p])]
  }

  /** Reads a comment, a blank line, a section or a property: the text after it, and the
      sections read so far. */
  function Step(s: string, sections: seq<Section>): (r: (string, seq<Section>))
    requires s != "" && !Blank(s[0])
    ensures |r.0| < |s|
  {
    if s[0] == '#' || s[0] == ';' then
      (SkipEol(s[UpTo(s, Eol)..]), sections)
    else if Eol(s[0]) then
      (SkipEol(s), sections)
    else if s[0] == '[' then
      var n := UpTo(s[1..], Close);
      var rest := s[1 + n..];
      (if rest != "" then rest[1..] else "", sections + [Section(Trim(s[1..][..n]), [])])
    else
      var n := UpTo(s, Eol);
      (SkipEol(s[n..]), AddProperty(sections, ParseLine(s[..n])))
  }

  function Parse(text: string, sections: seq<Section>): seq<Section>
    decreases |text|
  {
    var s := SkipBlanks(text);
    if s == "" then sections else Parse(Step(s, sections).0, Step(s, sections).1)
  }

  // ---------- writing ----------

  function Text(o: Option<string>): string {
    if o.Some? then o.value else ""
  }

  function PrintProperty(p: Property): string {
    Text(p.name) + (if p.value.Some? then "=" + p.value.value else "") + "\r\n"
  }

  function PrintProperties(ps: seq<Property>): string {
    if ps == [] then "" else PrintProperty(ps[0]) + PrintProperties(ps[1..])
  }

  function Print(sections: seq<Section>): string {
    if sections == [] then
      ""
    else
      "[" + Text(sections[0].name) + "]\r\n" + PrintProperties(sections[0].properties)
      + (if |sections| > 1 then "\r\n" else "") + Print(sections[1..])
  }
}
