/** Laws of the unbuffered reference: what reading, writing and positioning are to each other. */
module StreamLaws {
  import opened MachineWords
  import opened StreamSpec

  /** A write puts its bytes at the position, fills a gap with zeros and leaves everything else. */
  lemma {:induction false} WriteExact(r: Ref, s: seq<Byte>)
    requires s != []
    ensures var c := r.Write(s).contents;
            && r.pos + |s| <= |c| && c[r.pos..r.pos + |s|] == s && r.Write(s).pos == r.pos + |s|
            && (forall i :: 0 <= i < |r.contents| && !(r.pos <= i < r.pos + |s|) ==> i < |c| && c[i] == r.contents[i])
            && (forall i :: |r.contents| <= i < r.pos ==> c[i] == 0)
            && |c| == if r.pos + |s| < |r.contents| then |r.contents| else r.pos + |s|
  {
    var c := r.Write(s).contents;
    forall i: nat | i < |c| ensures c[i] == if r.pos <= i < r.pos + |s| then s[i - r.pos] else if i < |r.contents| then r.contents[i] else 0 {
      OverlayAt(r.contents, r.pos, s, i);
    }
  }

  /** Going back by the length of what was written and reading gives the bytes written. */
  lemma {:induction false} WriteThenRead(r: Ref, s: seq<Byte>)
    requires r.pushed == [] && s != []
    ensures var w := r.Write(s);
            Target(w, -|s|, Cur) == r.pos && Ref(w.contents, r.pos, []).Bytes(|s|) == s
  {
    WriteExact(r, s);
    ReadPlain(r.Write(s).contents, r.pos, |s|);
  }

  /** Going back by the number of bytes read gives the place where reading began. */
  lemma {:induction false} ReadThenBack(r: Ref, n: nat)
    requires r.pushed == []
    ensures Target(r.Read(n), -|r.Bytes(n)|, Cur) == r.pos
    ensures Target(r, r.Tell(), Set) == r.Tell() == Target(r, 0, Cur)
  {
  }

  /** From k bytes before the end exactly the last k bytes are read, and nothing from the end
      itself. */
  lemma {:induction false} FromEnd(r: Ref, k: int)
    requires 0 <= k <= |r.contents|
    ensures Target(r, -k, End) >= 0 && Ref(r.contents, Target(r, -k, End), []).Rest() == r.contents[|r.contents| - k..]
  {
  }

  /** From the start all of the file is read, and what is read in pieces adds up to it. */
  lemma {:induction false} ReadAll(r: Ref, n: nat)
    ensures Ref(r.contents, 0, []).Bytes(|r.contents|) == r.contents
    ensures r.Bytes(n) + r.Read(n).Rest() == r.Rest()
  {
    SkipRest(r, |r.Bytes(n)|);
    ReadPlain(r.contents, 0, |r.contents|);
  }

  /** A byte pushed back is read first, and then the position is where it was. */
  lemma {:induction false} PushedFirst(r: Ref, c: Byte)
    ensures var p := r.(pushed := [c] + r.pushed); p.Bytes(1) == [c] && p.Read(1) == r && p.Tell() == r.Tell() - 1
  {
    var p := r.(pushed := [c] + r.pushed);
    assert p.Rest()[..1] == [c];
    assert p.pushed[1..] == r.pushed;
  }
}
