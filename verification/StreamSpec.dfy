/**
 The unbuffered reference of a read/write stream: a byte array with a position and
 the characters pushed back in front of it.
 */
module StreamSpec {
  import opened MachineWords

  const EOF: int := -1

  /** data with the bytes s written at position pos; a gap is filled with zeros. */
  function Overlay(data: seq<Byte>, pos: nat, s: seq<Byte>): (r: seq<Byte>)
    ensures |r| == if s == [] || pos + |s| < |data| then |data| else pos + |s|
  {
    if s == [] then data
    else
      seq(if pos + |s| < |data| then |data| else pos + |s|,
          i requires 0 <= i =>
            if pos <= i < pos + |s| then s[i - pos] else if i < |data| then data[i] else 0)
  }

  lemma {:induction false} OverlayAt(data: seq<Byte>, pos: nat, s: seq<Byte>, i: nat)
    requires i < |Overlay(data, pos, s)|
    ensures Overlay(data, pos, s)[i] ==
            if pos <= i < pos + |s| then s[i - pos] else if i < |data| then data[i] else 0
  {
  }

  /** Writing in two steps is writing at once. */
  lemma {:induction false} OverlayJoin(data: seq<Byte>, pos: nat, a: seq<Byte>, b: seq<Byte>)
    ensures Overlay(Overlay(data, pos, a), pos + |a|, b) == Overlay(data, pos, a + b)
  {
    var l, r := Overlay(Overlay(data, pos, a), pos + |a|, b), Overlay(data, pos, a + b);
    if a == [] {
      assert a + b == b;
    } else if b == [] {
      assert a + b == a;
    } else {
      forall i: nat | i < |l| ensures l[i] == r[i] {
        JoinAt(data, pos, a, b, i);
      }
    }
  }

  lemma {:induction false} JoinAt(data: seq<Byte>, pos: nat, a: seq<Byte>, b: seq<Byte>, i: nat)
    requires a != [] && b != [] && i < |Overlay(data, pos, a + b)|
    ensures |Overlay(Overlay(data, pos, a), pos + |a|, b)| == |Overlay(data, pos, a + b)|
    ensures Overlay(Overlay(data, pos, a), pos + |a|, b)[i] == Overlay(data, pos, a + b)[i]
  {
    OverlayAt(Overlay(data, pos, a), pos + |a|, b, i);
    OverlayAt(data, pos, a + b, i);
    if i < |Overlay(data, pos, a)| {
      OverlayAt(data, pos, a, i);
    }
  }

  datatype Ref = Ref(contents: seq<Byte>, pos: nat, pushed: seq<Byte>) {

    /** Everything still to be read. */
    function Rest(): seq<Byte> {
      pushed + (if pos <= |contents| then contents[pos..] else [])
    }

    /** Skips k bytes of the rest. */
    function Skip(k: nat): Ref {
      if k <= |pushed| then Ref(contents, pos, pushed[k..])
      else Ref(contents, pos + k - |pushed|, [])
    }

    /** The bytes a read of n delivers. */
    function Bytes(n: nat): seq<Byte> {
      if n <= |Rest()| then Rest()[..n] else Rest()
    }

    function Read(n: nat): Ref {
      Skip(|Bytes(n)|)
    }

    function Write(s: seq<Byte>): Ref {
      Ref(Overlay(contents, pos, s), pos + |s|, pushed)
    }

    function Tell(): int {
      pos - |pushed|
    }
  }

  datatype Whence = Set | Cur | End

  function Target(r: Ref, offset: int, whence: Whence): int {
    match whence
    case Set => offset
    case Cur => r.Tell() + offset
    case End => |r.contents| + offset
  }

  /** Reading in two steps is reading at once. */
  lemma {:induction false} ReadJoin(r: Ref, a: nat, b: nat)
    requires |r.Bytes(a)| == a
    ensures r.Bytes(a) + r.Read(a).Bytes(b) == r.Bytes(a + b)
    ensures r.Read(a).Read(b) == r.Read(a + b)
  {
    SkipRest(r, a);
  }

  lemma {:induction false} SkipRest(r: Ref, k: nat)
    requires k <= |r.Rest()|
    ensures r.Skip(k).Rest() == r.Rest()[k..]
  {
  }

  /** Reading from a stream that has nothing pushed back. */
  lemma {:induction false} ReadPlain(data: seq<Byte>, pos: nat, n: nat)
    ensures var r := Ref(data, pos, []); var k := if pos >= |data| then 0 else if n <= |data| - pos then n else |data| - pos;
            r.Bytes(n) == (if k == 0 then [] else data[pos..pos + k]) && r.Read(n) == Ref(data, pos + k, [])
  {
    var r := Ref(data, pos, []);
    assert r.Rest() == if pos <= |data| then data[pos..] else [];
  }

  lemma {:induction false} WriteJoin(r: Ref, a: seq<Byte>, b: seq<Byte>)
    ensures r.Write(a).Write(b) == r.Write(a + b)
  {
    OverlayJoin(r.contents, r.pos, a, b);
  }
}
