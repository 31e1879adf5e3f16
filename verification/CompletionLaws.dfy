/** What the tab key completes. */
module CompletionLaws {
  import opened LineEditing

  // ---------- names that start like the word ----------

  predicate Tame(s: string) {
    forall i :: 0 <= i < |s| ==> s[i] != '*' && s[i] != '?'
  }

  lemma {:induction false} PrefixMatches(name: string, stem: string)
    requires Tame(stem)
    ensures Matches(name, stem + "*") <==> stem <= name
    decreases |stem|
  {
    var mask := stem + "*";
    if stem == "" {
      assert mask == "*" && mask[1..] == "";
      assert name[|name|..] == "" && Matches(name[|name|..], mask[1..]);
    } else {
      assert mask[0] == stem[0] && mask[1..] == stem[1..] + "*";
      if name != "" {
        PrefixMatches(name[1..], stem[1..]);
        assert name == [name[0]] + name[1..] && stem == [stem[0]] + stem[1..];
      }
    }
  }

  /** Without wildcards in the word, the names that match are those that start with it. */
  lemma {:induction false} MaskIsPrefix(name: string, stem: string)
    requires Tame(stem)
    ensures Like(name, Mask(stem)) <==> stem <= name
  {
    assert !Wild(stem);
    assert stem == "" ==> stem + "*" == "*";
    PrefixMatches(name, stem);
    LikeExact(name, Mask(stem));
  }

  // ---------- where the word is ----------

  predicate NoDelimiter(s: string) {
    forall i :: 0 <= i < |s| ==> !Delimiter(s[i])
  }

  lemma {:induction false} WordStartAt(s: string, a: nat, i: nat)
    requires a <= i <= |s| && (a == 0 || Delimiter(s[a - 1])) && forall k :: a <= k < i ==> !Delimiter(s[k])
    ensures WordStart(s, i) == a
    decreases i
  {
    if i > a {
      WordStartAt(s, a, i - 1);
    }
  }

  lemma {:induction false} WordEndAt(s: string, i: nat, b: nat)
    requires i <= b <= |s| && (b == |s| || Delimiter(s[b])) && forall k :: i <= k < b ==> !Delimiter(s[k])
    ensures WordEnd(s, i) == b
    decreases b - i
  {
    if i < b {
      WordEndAt(s, i + 1, b);
    }
  }

  lemma {:induction false} NameStartAt(s: string, i: nat, split: nat, c: nat, b: nat)
    requires split <= i <= b <= |s| && (b == |s| || Delimiter(s[b])) && forall k :: i <= k < b ==> !Delimiter(s[k])
    requires split <= c <= b && (forall k :: c <= k < b && k >= i ==> !Separator(s[k])) && (c == split || (i < c && Separator(s[c - 1])))
    requires c == split ==> forall k :: i <= k < b ==> !Separator(s[k])
    ensures NameStart(s, i, split) == c
    decreases b - i
  {
    if i < b {
      NameStartAt(s, i + 1, if Separator(s[i]) then i + 1 else split, c, b);
    }
  }

  // ---------- the tab key ----------

  /** A line with a word in it: s stands before the word and t behind it, the word is a path
      that is empty or ends in a separator, and a stem. */
  predicate Word(s: string, path: string, stem: string, t: string) {
    && (s == "" || Delimiter(s[|s| - 1])) && (t == "" || Delimiter(t[0]))
    && NoDelimiter(path) && NoDelimiter(stem) && Tame(stem)
    && (path == "" || Separator(path[|path| - 1])) && forall i :: 0 <= i < |stem| ==> !Separator(stem[i])
  }

  lemma {:induction false} WordPlaces(s: string, path: string, stem: string, t: string, i: nat)
    requires Word(s, path, stem, t) && |s| <= i <= |s + path + stem|
    ensures var text := s + path + stem + t;
            && WordStart(text, i) == |s| && WordEnd(text, |s|) == |s + path + stem| && NameStart(text, |s|, |s|) == |s + path|
  {
    var text, a, c, b := s + path + stem + t, |s|, |s + path|, |s + path + stem|;
    assert forall k :: a <= k < c ==> text[k] == path[k - a];
    assert forall k :: c <= k < b ==> text[k] == stem[k - c];
    assert a > 0 ==> text[a - 1] == s[a - 1];
    assert b < |text| ==> text[b] == t[0];
    WordStartAt(text, a, i);
    WordEndAt(text, a, b);
    NameStartAt(text, a, a, c, b);
  }

  /** Name j is the first that starts with the stem and leaves the line room to spare. */
  predicate FirstName(names: seq<string>, j: nat, stem: string, others: nat, size: nat) {
    && j < |names| && stem <= names[j] && others + |names[j]| + 1 < size
    && forall i :: 0 <= i < j ==> !(stem <= names[i] && others + |names[i]| + 1 < size)
  }

  lemma {:induction false} NextNameAt(text: string, names: seq<string>, split: nat, end: nat, stem: string, size: nat, k: nat, j: nat)
    requires split <= end <= |text| && k <= j && Tame(stem) && FirstName(names, j, stem, |text| - (end - split), size)
    ensures NextName(text, names, split, end, Mask(stem), size, k) == j
    decreases j - k
  {
    MaskIsPrefix(names[k], stem);
    if k < j {
      NextNameAt(text, names, split, end, stem, size, k + 1, j);
    }
  }

  /** The parts of the line around the places of the word. */
  lemma {:induction false} Parts(s: string, path: string, stem: string, t: string)
    ensures var text, split, end := s + path + stem + t, |s + path|, |s + path + stem|;
            && text[..split] == s + path && text[split..end] == stem && text[end..] == t
            && Path(text, |s|, split) == if path == "" then "." else path
  {
    var text, split := s + path + stem + t, |s + path|;
    assert text[|s|..split] == path;
  }

  /** The tab key puts the first name of the directory that starts with the stem in the place
      of the stem, with the cursor behind it. */
  lemma {:induction false} TabCompletes(l: Line, s: string, path: string, stem: string, t: string, names: seq<string>, j: nat, e: Env)
    requires Fits(l, e) && Word(s, path, stem, t) && l.text == s + path + stem + t && |s| <= l.idx <= |s + path + stem|
    requires e.dir(if path == "" then "." else path) == Names(names) && FirstName(names, j, stem, |s + path + t|, e.size)
    ensures Step(l, Editing, Tab, e).0 == l.(text := s + path + names[j] + t, idx := |s + path + names[j]|)
  {
    var text, split, end := l.text, |s + path|, |s + path + stem|;
    WordPlaces(s, path, stem, t, l.idx);
    Parts(s, path, stem, t);
    NextNameAt(text, names, split, end, stem, e.size, 0, j);
  }

  /** When no name starts with the stem, or there is no such directory, the line stays. */
  lemma {:induction false} TabKeeps(l: Line, s: string, path: string, stem: string, t: string, e: Env)
    requires Fits(l, e) && Word(s, path, stem, t) && l.text == s + path + stem + t && |s| <= l.idx <= |s + path + stem|
    requires var listing := e.dir(if path == "" then "." else path);
             listing.Names? ==> forall i :: 0 <= i < |listing.names| ==> !(stem <= listing.names[i])
    ensures Step(l, Editing, Tab, e) == (l, Editing)
  {
    var text, split, end := l.text, |s + path|, |s + path + stem|;
    WordPlaces(s, path, stem, t, l.idx);
    Parts(s, path, stem, t);
    var listing := e.dir(if path == "" then "." else path);
    if listing.Names? {
      NoName(text, listing.names, split, end, stem, e.size, 0);
    }
  }

  lemma {:induction false} NoName(text: string, names: seq<string>, split: nat, end: nat, stem: string, size: nat, k: nat)
    requires split <= end <= |text| && k <= |names| && Tame(stem) && forall i :: 0 <= i < |names| ==> !(stem <= names[i])
    ensures NextName(text, names, split, end, Mask(stem), size, k) == |names|
    decreases |names| - k
  {
    if k < |names| {
      MaskIsPrefix(names[k], stem);
      NoName(text, names, split, end, stem, size, k + 1);
    }
  }
}
