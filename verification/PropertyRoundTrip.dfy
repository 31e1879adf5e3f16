/** Reading what was written gives the same sections back. */
module PropertyRoundTrip {
  import opened Options
  import opened PropertySpec

  predicate Without(s: string, stop: char -> bool) {
    forall i :: 0 <= i < |s| ==> !stop(s[i])
  }

  predicate Tight(s: string) {
    s != "" && !Blank(s[|s| - 1])
  }

  predicate SectionName(n: string) {
    Tight(n) && Without(n, Close) && Plain(n)
  }

  predicate PropertyName(n: string) {
    && Tight(n) && !Blank(n[0]) && n[0] != '#' && n[0] != ';' && n[0] != '['
    && Without(n, Eol) && Without(n, Separator) && Plain(n)
  }

  predicate Value(v: string) {
    Tight(v) && !Blank(v[0]) && Without(v, Eol) && Plain(v)
  }

  predicate CleanProperty(p: Property) {
    (p.name.Some? ==> PropertyName(p.name.value)) && (p.value.Some? ==> Value(p.value.value))
  }

  predicate CleanSection(s: Section) {
    (s.name.Some? ==> SectionName(s.name.value)) && forall i :: 0 <= i < |s.properties| ==> CleanProperty(s.properties[i])
  }

  predicate Clean(sections: seq<Section>) {
    forall i :: 0 <= i < |sections| ==> CleanSection(sections[i])
  }

  predicate NamedProperties(ps: seq<Property>) {
    forall i :: 0 <= i < |ps| ==> ps[i].name.Some?
  }

  predicate Named(sections: seq<Section>) {
    forall i :: 0 <= i < |sections| ==> sections[i].name.Some? && NamedProperties(sections[i].properties)
  }

  // ---------- what parsing gives ----------

  lemma {:induction false} DropBlanksPrefix(s: string)
    ensures DropBlanks(s) <= s && (DropBlanks(s) == "" || Tight(DropBlanks(s)))
  {
    if s != "" && Blank(s[|s| - 1]) {
      DropBlanksPrefix(s[..|s| - 1]);
    }
  }

  lemma {:induction false} TrimPlain(s: string)
    requires Plain(s)
    ensures Trim(s).Some? ==> Trim(s).value <= s && Tight(Trim(s).value) && Plain(Trim(s).value)
  {
    DropBlanksPrefix(s);
    var t := DropBlanks(s);
    assert Plain(t);
    UnescapePlain(t);
  }

  lemma {:induction false} TrimTight(s: string)
    requires Plain(s) && Tight(s)
    ensures Trim(s) == Some(s)
  {
    UnescapePlain(s);
  }

  lemma {:induction false} SkipBlanksKeeps(s: string)
    ensures Plain(s) ==> Plain(SkipBlanks(s))
    ensures Without(s, Eol) ==> Without(SkipBlanks(s), Eol)
  {
    if s != "" && Blank(s[0]) {
      SkipBlanksKeeps(s[1..]);
    }
  }

  lemma {:induction false} NameClean(n: string)
    requires Plain(n) && Without(n, Eol) && Without(n, Separator)
    requires n != "" ==> !Blank(n[0]) && n[0] !in "#;["
    ensures Trim(n).Some? ==> PropertyName(Trim(n).value)
  {
    TrimPlain(n);
  }

  lemma {:induction false} ValueClean(v: string)
    requires Plain(v) && Without(v, Eol) && (v != "" ==> !Blank(v[0]))
    ensures Trim(v).Some? ==> Value(Trim(v).value)
  {
    TrimPlain(v);
  }

  lemma {:induction false} LineClean(line: string)
    requires Plain(line) && Without(line, Eol) && line != "" && !Blank(line[0]) && line[0] !in "#;["
    ensures CleanProperty(ParseLine(line))
  {
    var n := UpTo(line, Separator);
    NameClean(line[..n]);
    if n == |line| {
      assert line[..n] == line;
    } else {
      SkipBlanksKeeps(line[n + 1..]);
      ValueClean(SkipBlanks(line[n + 1..]));
    }
  }

  lemma {:induction false} AddClean(sections: seq<Section>, p: Property)
    requires Clean(sections) && CleanProperty(p)
    ensures Clean(AddProperty(sections, p))
  {
  }

  lemma {:induction false} SectionClean(sections: seq<Section>, s: string)
    requires Clean(sections) && Plain(s) && Without(s, Close)
    ensures Clean(sections + [Section(Trim(s), [])])
  {
    TrimPlain(s);
  }

  lemma {:induction false} SkipEolPlain(s: string)
    requires Plain(s)
    ensures Plain(SkipEol(s))
  {
  }

  /** Parsing goes on with a shorter text and clean sections. */
  lemma {:induction false} StepClean(s: string, sections: seq<Section>)
    requires Plain(s) && Clean(sections) && s != "" && !Blank(s[0])
    ensures Plain(Step(s, sections).0) && Clean(Step(s, sections).1)
  {
    if s[0] == '#' || s[0] == ';' {
      SkipEolPlain(s[UpTo(s, Eol)..]);
    } else if Eol(s[0]) {
      SkipEolPlain(s);
    } else if s[0] == '[' {
      SectionClean(sections, s[1..][..UpTo(s[1..], Close)]);
    } else {
      var n := UpTo(s, Eol);
      LineClean(s[..n]);
      AddClean(sections, ParseLine(s[..n]));
      SkipEolPlain(s[n..]);
    }
  }

  /** Names and values come without what would be read differently when written out. */
  lemma {:induction false} ParseClean(text: string, sections: seq<Section>)
    requires Plain(text) && Clean(sections)
    ensures Clean(Parse(text, sections))
    decreases |text|
  {
    var s := SkipBlanks(text);
    SkipBlanksKeeps(text);
    if s != "" {
      StepClean(s, sections);
      ParseClean(Step(s, sections).0, Step(s, sections).1);
    }
  }

  // ---------- reading it back ----------

  lemma {:induction false} UpToAt(s: string, n: nat, stop: char -> bool)
    requires n <= |s| && (n < |s| ==> stop(s[n])) && forall i :: 0 <= i < n ==> !stop(s[i])
    ensures UpTo(s, stop) == n
  {
  }

  lemma {:induction false} Regroup<T>(a: seq<T>, s: seq<T>)
    requires s != []
    ensures a + [s[0]] + s[1..] == a + s
  {
  }

  lemma {:induction false} ReadBlank(t: string, sections: seq<Section>)
    ensures Parse("\r\n" + t, sections) == Parse(t, sections)
  {
    var s := "\r\n" + t;
    assert SkipBlanks(s) == s;
    assert s[1..][1..] == t;
  }

  lemma {:induction false} ReadSection(n: string, t: string, sections: seq<Section>)
    requires SectionName(n)
    ensures Parse("[" + n + "]\r\n" + t, sections) == Parse(t, sections + [Section(Some(n), [])])
  {
    var s := "[" + n + "]\r\n" + t;
    assert SkipBlanks(s) == s;
    assert s[1..][..|n|] == n;
    UpToAt(s[1..], |n|, Close);
    TrimTight(n);
    assert s[1 + |n|..][1..] == "\r\n" + t;
    assert Step(s, sections) == ("\r\n" + t, sections + [Section(Some(n), [])]);
    ReadBlank(t, sections + [Section(Some(n), [])]);
  }

  /** The line of a property without its end. */
  function Line(p: Property): string {
    Text(p.name) + (if p.value.Some? then "=" + p.value.value else "")
  }

  lemma {:induction false} ParseLineBack(p: Property)
    requires CleanProperty(p) && p.name.Some?
    ensures ParseLine(Line(p)) == p && Without(Line(p), Eol)
  {
    var line, n := Line(p), p.name.value;
    assert line[..|n|] == n;
    UpToAt(line, |n|, Separator);
    TrimTight(n);
    if p.value.Some? {
      var v := p.value.value;
      assert line[|n| + 1..] == v;
      assert SkipBlanks(v) == v;
      TrimTight(v);
    } else {
      assert line == n;
    }
  }

  /** A step over a line that is a property. */
  lemma {:induction false} StepLine(line: string, t: string, sections: seq<Section>)
    requires line != "" && Without(line, Eol) && !Blank(line[0]) && line[0] !in {'#', ';', '['}
    ensures var s := line + ("\r\n" + t);
            SkipBlanks(s) == s && Step(s, sections) == (t, AddProperty(sections, ParseLine(line)))
  {
    var s := line + ("\r\n" + t);
    assert s[0] == line[0];
    assert s[..|line|] == line && s[|line|..] == "\r\n" + t;
    UpToAt(s, |line|, Eol);
    assert ("\r\n" + t)[1..][1..] == t;
  }

  lemma {:induction false} ReadProperty(p: Property, t: string, sections: seq<Section>)
    requires CleanProperty(p) && p.name.Some?
    ensures Parse(PrintProperty(p) + t, sections) == Parse(t, AddProperty(sections, p))
  {
    assert PrintProperty(p) + t == Line(p) + ("\r\n" + t);
    assert Line(p)[0] == p.name.value[0];
    ParseLineBack(p);
    StepLine(Line(p), t, sections);
  }

  lemma {:induction false} AddLast(sections: seq<Section>, n: Option<string>, before: seq<Property>, p: Property)
    ensures AddProperty(sections + [Section(n, before)], p) == sections + [Section(n, before + [p])]
  {
  }

  lemma {:induction false} PrintFirst(ps: seq<Property>, t: string)
    requires ps != []
    ensures PrintProperties(ps) + t == PrintProperty(ps[0]) + (PrintProperties(ps[1..]) + t)
  {
  }

  lemma {:induction false} ReadProperties(ps: seq<Property>, t: string, sections: seq<Section>, n: Option<string>, before: seq<Property>)
    requires (forall i :: 0 <= i < |ps| ==> CleanProperty(ps[i])) && NamedProperties(ps)
    ensures Parse(PrintProperties(ps) + t, sections + [Section(n, before)]) == Parse(t, sections + [Section(n, before + ps)])
    decreases |ps|
  {
    if ps == [] {
      assert PrintProperties(ps) + t == t && before + ps == before;
    } else {
      PrintFirst(ps, t);
      ReadProperty(ps[0], PrintProperties(ps[1..]) + t, sections + [Section(n, before)]);
      AddLast(sections, n, before, ps[0]);
      ReadProperties(ps[1..], t, sections, n, before + [ps[0]]);
      Regroup(before, ps);
    }
  }

  /** What is written after a section. */
  function Tail(sections: seq<Section>): string {
    (if |sections| > 0 then "\r\n" else "") + Print(sections)
  }

  lemma {:induction false} PrintParts(sections: seq<Section>)
    requires sections != [] && sections[0].name.Some?
    ensures Print(sections) == "[" + sections[0].name.value + "]\r\n" + (PrintProperties(sections[0].properties) + Tail(sections[1..]))
  {
  }

  lemma {:induction false} ReadFirst(x: Section, t: string, before: seq<Section>)
    requires CleanSection(x) && x.name.Some? && NamedProperties(x.properties)
    ensures Parse("[" + x.name.value + "]\r\n" + (PrintProperties(x.properties) + t), before) == Parse(t, before + [x])
  {
    ReadSection(x.name.value, PrintProperties(x.properties) + t, before);
    ReadProperties(x.properties, t, before, x.name, []);
    assert [] + x.properties == x.properties;
  }

  lemma {:induction false} ReadBack(sections: seq<Section>, before: seq<Section>)
    requires Clean(sections) && Named(sections)
    ensures Parse(Print(sections), before) == before + sections
    decreases |sections|, 0
  {
    if sections == [] {
      assert before + sections == before;
    } else {
      PrintParts(sections);
      ReadFirst(sections[0], Tail(sections[1..]), before);
      ReadTail(sections[1..], before + [sections[0]]);
      Regroup(before, sections);
    }
  }

  lemma {:induction false} ReadTail(sections: seq<Section>, before: seq<Section>)
    requires Clean(sections) && Named(sections)
    ensures Parse(Tail(sections), before) == before + sections
    decreases |sections|, 1
  {
    ReadBack(sections, before);
    if sections != [] {
      ReadBlank(Print(sections), before);
    } else {
      assert "" + Print(sections) == Print(sections);
    }
  }

  /** Reading what is written for a text gives the sections of the text. */
  lemma {:induction false} RoundTrip(text: string)
    requires Plain(text) && Named(Parse(text, []))
    ensures Parse(Print(Parse(text, [])), []) == Parse(text, [])
  {
    ParseClean(text, []);
    ReadBack(Parse(text, []), []);
  }
}
