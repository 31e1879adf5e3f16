/** Reading and writing property files. */
module PropertyFile {
  import opened Options
  import opened PropertySpec

  // ---------- trimming ----------

  /** Reads up to two digits after a circumflex. */
  method ReadEscape(text: string, i: nat, end: nat) returns (ch: nat, k: nat)
    requires i <= end <= |text|
    ensures i <= k <= end && (ch, text[k..end]) == Escape(text[i..end])
  {
    ghost var s := text[i..end];
    ch, k := 0, i;
    if k == end || Digit(text[k]).None? {
      return;
    }
    ch := Digit(text[k]).value;
    k := k + 1;
    assert s[1..] == text[k..end];
    if k == end || Digit(text[k]).None? {
      return;
    }
    assert s[1] == text[k];
    ch := 16 * ch + Digit(text[k]).value;
    k := k + 1;
    assert s[2..] == text[k..end];
  }

  /** Copying one character, or one escape. */
  lemma {:induction false} CopyStep(str: string, t: string)
    requires t != ""
    ensures t[0] != '^' ==> str + Unescape(t) == (str + [t[0]]) + Unescape(t[1..])
    ensures t[0] == '^' ==> var (c, rest) := Escape(t[1..]); str + Unescape(t) == (str + [c as char]) + Unescape(rest)
  {
  }

  /** Copies a text, with escapes replaced. */
  method CopyUnescaped(text: string, start: nat, end: nat) returns (str: string)
    requires start <= end <= |text|
    ensures str == Unescape(text[start..end])
  {
    str := "";
    var s := start;
    ghost var all := Unescape(text[start..end]);
    assert "" + all == all;
    while s < end
      invariant start <= s <= end && str + Unescape(text[s..end]) == all
      decreases end - s
    {
      CopyStep(str, text[s..end]);
      assert text[s..end][1..] == text[s + 1..end];
      if text[s] == '^' {
        var ch, k := ReadEscape(text, s + 1, end);
        str := str + [ch as char];
        s := k;
      } else {
        str := str + [text[s]];
        s := s + 1;
      }
    }
    assert text[end..end] == "" && str + "" == str;
  }

  /** The text without blanks at its end and with escapes replaced; nothing if it is empty. */
  method TrimStr(text: string, s: nat, e: nat) returns (str: Option<string>)
    requires s <= e <= |text|
    ensures str == Trim(text[s..e])
  {
    var end := e;
    while end > s && Blank(text[end - 1])
      invariant s <= end <= e && DropBlanks(text[s..e]) == DropBlanks(text[s..end])
    {
      assert text[s..end][..end - s - 1] == text[s..end - 1];
      end := end - 1;
    }
    assert DropBlanks(text[s..end]) == text[s..end];
    if end == s {
      return None;
    }
    var t := CopyUnescaped(text, s, end);
    str := Some(t);
  }

  // ---------- reading ----------

  method PassBlanks(text: string, p: nat) returns (k: nat)
    requires p <= |text|
    ensures p <= k <= |text| && text[k..] == SkipBlanks(text[p..])
  {
    k := p;
    while k < |text| && Blank(text[k])
      invariant p <= k <= |text| && SkipBlanks(text[p..]) == SkipBlanks(text[k..])
    {
      assert text[k..][1..] == text[k + 1..];
      k := k + 1;
    }
  }

  method PassEol(text: string, p: nat) returns (k: nat)
    requires p <= |text|
    ensures p <= k <= |text| && text[k..] == SkipEol(text[p..])
  {
    k := p;
    if k < |text| && text[k] == '\r' {
      assert text[k..][1..] == text[k + 1..];
      k := k + 1;
    }
    ghost var t := text[k..];
    if k < |text| && text[k] == '\n' {
      assert t[1..] == text[k + 1..];
      k := k + 1;
    }
  }

  /** The end of the line. */
  method FindEol(text: string, p: nat) returns (k: nat)
    requires p <= |text|
    ensures p <= k <= |text| && k - p == UpTo(text[p..], Eol)
  {
    k := p;
    while k < |text| && !Eol(text[k])
      invariant p <= k <= |text| && forall i :: p <= i < k ==> !Eol(text[i])
    {
      k := k + 1;
    }
    UpToIs(text, p, k, Eol);
  }

  method FindClose(text: string, p: nat) returns (k: nat)
    requires p <= |text|
    ensures p <= k <= |text| && k - p == UpTo(text[p..], Close)
  {
    k := p;
    while k < |text| && text[k] != ']'
      invariant p <= k <= |text| && forall i :: p <= i < k ==> !Close(text[i])
    {
      k := k + 1;
    }
    UpToIs(text, p, k, Close);
  }

  lemma {:induction false} UpToIs(text: string, p: nat, k: nat, stop: char -> bool)
    requires p <= k <= |text| && (k < |text| ==> stop(text[k])) && forall i :: p <= i < k ==> !stop(text[i])
    ensures UpTo(text[p..], stop) == k - p
  {
    var s := text[p..];
    var n := UpTo(s, stop);
    assert n < |s| ==> s[n] == text[p + n];
    assert k < |text| ==> s[k - p] == text[k];
  }

  /** The end of the line and its first separator, if it has one. */
  method ScanLine(text: string, p: nat) returns (end: nat, split: Option<nat>)
    requires p <= |text|
    ensures p <= end <= |text| && end - p == UpTo(text[p..], Eol)
    ensures var n := UpTo(text[p..end], Separator);
            if n == end - p then split.None? else split == Some(p + n)
  {
    end, split := p, None;
    while end < |text| && !Eol(text[end])
      invariant p <= end <= |text| && forall i :: p <= i < end ==> !Eol(text[i])
      invariant split.None? ==> forall i :: p <= i < end ==> !Separator(text[i])
      invariant split.Some? ==> p <= split.value < end && Separator(text[split.value]) && forall i :: p <= i < split.value ==> !Separator(text[i])
    {
      if split.None? && (text[end] == '=' || text[end] == ':') {
        split := Some(end);
      }
      end := end + 1;
    }
    UpToIs(text, p, end, Eol);
    FirstSeparator(text, p, end, split);
  }

  lemma {:induction false} FirstSeparator(text: string, p: nat, end: nat, split: Option<nat>)
    requires p <= end <= |text|
    requires split.None? ==> forall i :: p <= i < end ==> !Separator(text[i])
    requires split.Some? ==> p <= split.value < end && Separator(text[split.value]) && forall i :: p <= i < split.value ==> !Separator(text[i])
    ensures UpTo(text[p..end], Separator) == if split.None? then end - p else split.value - p
  {
    var k := if split.None? then end else split.value;
    assert text[..end][p..] == text[p..end];
    UpToIs(text[..end], p, k, Separator);
  }

  /** Reads the value of a property, which goes to the end of its line. */
  method ReadValue(text: string, p: nat, from: nat, end: nat) returns (value: Option<string>)
    requires p <= from <= end <= |text| && end - p == UpTo(text[p..], Eol)
    ensures value == Trim(SkipBlanks(text[from..end]))
  {
    var m := from;
    while m < |text| && Blank(text[m])
      invariant from <= m <= end && SkipBlanks(text[m..end]) == SkipBlanks(text[from..end])
    {
      BeforeEol(text, p, end, m);
      assert text[m..end][1..] == text[m + 1..end];
      m := m + 1;
    }
    assert SkipBlanks(text[m..end]) == text[m..end];
    value := TrimStr(text, m, end);
  }

  /** Reads a property from a line. */
  method ReadProperty(text: string, p: nat) returns (prop: Property, end: nat)
    requires p <= |text|
    ensures p <= end <= |text| && end - p == UpTo(text[p..], Eol) && prop == ParseLine(text[p..end])
  {
    var split;
    end, split := ScanLine(text, p);
    ghost var line := text[p..end];
    if split.Some? {
      var m := split.value;
      var name := TrimStr(text, p, m);
      var value := ReadValue(text, p, m + 1, end);
      assert line[..m - p] == text[p..m] && line[m - p + 1..] == text[m + 1..end];
      prop := Property(name, value);
    } else {
      var name := TrimStr(text, p, end);
      prop := Property(name, None);
    }
  }

  /** A blank is not at the end of a line. */
  lemma {:induction false} BeforeEol(text: string, p: nat, end: nat, m: nat)
    requires p <= m <= end <= |text| && end - p == UpTo(text[p..], Eol) && m < |text| && Blank(text[m])
    ensures m < end
  {
    assert end < |text| ==> text[p..][end - p] == text[end];
  }

  /** Reads a section header from the bracket on. */
  method ReadSection(text: string, p: nat) returns (name: Option<string>, k: nat)
    requires p < |text| && text[p] == '['
    ensures p < k <= |text|
    ensures var s := text[p..]; var n := UpTo(s[1..], Close);
            && name == Trim(s[1..][..n])
            && text[k..] == (var rest := s[1 + n..]; if rest != "" then rest[1..] else "")
  {
    ghost var s := text[p..];
    assert s[1..] == text[p + 1..];
    var end := FindClose(text, p + 1);
    ghost var n := end - p - 1;
    assert s[1..][..n] == text[p + 1..end];
    name := TrimStr(text, p + 1, end);
    k := end;
    assert s[1 + n..] == text[end..];
    if k < |text| {
      k := k + 1;
      assert text[end..][1..] == text[k..];
    }
  }

  method ReadComment(text: string, p: nat) returns (k: nat)
    requires p < |text| && !Eol(text[p])
    ensures p < k <= |text| && text[k..] == SkipEol(text[p..][UpTo(text[p..], Eol)..])
  {
    var e := FindEol(text, p);
    assert text[p..][e - p..] == text[e..];
    k := PassEol(text, e);
  }

  method ReadLine(text: string, p: nat, sections: seq<Section>) returns (k: nat, after: seq<Section>)
    requires p < |text| && !Eol(text[p])
    ensures p < k <= |text|
    ensures var s := text[p..]; var n := UpTo(s, Eol);
            text[k..] == SkipEol(s[n..]) && after == AddProperty(sections, ParseLine(s[..n]))
  {
    var prop, e := ReadProperty(text, p);
    ghost var s := text[p..];
    assert s[..e - p] == text[p..e] && s[e - p..] == text[e..];
    after := sections;
    if sections != [] {
      after := AddProperty(sections, prop);
    }
    k := PassEol(text, e);
  }

  /** Reads one line, comment or section header that starts at p. */
  method ReadStep(text: string, p: nat, sections: seq<Section>) returns (k: nat, after: seq<Section>)
    requires p < |text| && !Blank(text[p])
    ensures p < k <= |text| && (text[k..], after) == Step(text[p..], sections)
  {
    assert text[p..][0] == text[p];
    after := sections;
    if text[p] == '#' || text[p] == ';' {
      k := ReadComment(text, p);
    } else if Eol(text[p]) {
      k := PassEol(text, p);
    } else if text[p] == '[' {
      var name;
      name, k := ReadSection(text, p);
      after := sections + [Section(name, [])];
    } else {
      k, after := ReadLine(text, p, sections);
    }
  }

  /** Reads a whole text. */
  method ParseProperties(text: string) returns (sections: seq<Section>)
    ensures sections == Parse(text, [])
  {
    sections := [];
    var p := 0;
    assert text[0..] == text;
    while p < |text|
      invariant p <= |text| && Parse(text, []) == Parse(text[p..], sections)
      decreases |text| - p
    {
      var k := PassBlanks(text, p);
      if k == |text| {
        p := k;
        assert Parse(text[p..], sections) == sections;
      } else {
        p, sections := ReadStep(text, k, sections);
      }
    }
  }

  // ---------- writing ----------

  method WriteProperty(p: Property) returns (out: string)
    ensures out == PrintProperty(p)
  {
    out := Text(p.name);
    if p.value.Some? {
      out := out + ("=" + p.value.value);
    } else {
      assert out + "" == out;
    }
    out := out + "\r\n";
  }

  lemma {:induction false} PropertiesFrom(ps: seq<Property>, i: nat, out: string)
    requires i < |ps|
    ensures out + PrintProperties(ps[i..]) == (out + PrintProperty(ps[i])) + PrintProperties(ps[i + 1..])
  {
    assert ps[i..][1..] == ps[i + 1..];
  }

  method WriteProperties(ps: seq<Property>) returns (out: string)
    ensures out == PrintProperties(ps)
  {
    out := "";
    var i := 0;
    assert ps[0..] == ps && "" + PrintProperties(ps) == PrintProperties(ps);
    while i < |ps|
      invariant 0 <= i <= |ps| && out + PrintProperties(ps[i..]) == PrintProperties(ps)
    {
      PropertiesFrom(ps, i, out);
      var line := WriteProperty(ps[i]);
      out := out + line;
      i := i + 1;
    }
    assert PrintProperties(ps[i..]) == "" && out + "" == out;
  }

  /** A section as it is written. */
  ghost function PrintSection(x: Section, more: bool): string {
    "[" + Text(x.name) + "]\r\n" + PrintProperties(x.properties) + (if more then "\r\n" else "")
  }

  method WriteSection(x: Section, more: bool) returns (out: string)
    ensures out == PrintSection(x, more)
  {
    out := "[" + Text(x.name) + "]\r\n";
    var lines := WriteProperties(x.properties);
    out := out + lines;
    if more {
      out := out + "\r\n";
    } else {
      assert out + "" == out;
    }
  }

  lemma {:induction false} SectionsFrom(sections: seq<Section>, i: nat, out: string)
    requires i < |sections|
    ensures out + Print(sections[i..]) == (out + PrintSection(sections[i], i + 1 < |sections|)) + Print(sections[i + 1..])
  {
    assert sections[i..][1..] == sections[i + 1..];
  }

  /** Writes sections out. */
  method ListProperties(sections: seq<Section>) returns (out: string)
    ensures out == Print(sections)
  {
    out := "";
    var i := 0;
    assert sections[0..] == sections && "" + Print(sections) == Print(sections);
    while i < |sections|
      invariant 0 <= i <= |sections| && out + Print(sections[i..]) == Print(sections)
    {
      SectionsFrom(sections, i, out);
      var part := WriteSection(sections[i], i + 1 < |sections|);
      out := out + part;
      i := i + 1;
    }
    assert Print(sections[i..]) == "" && out + "" == out;
  }
}
