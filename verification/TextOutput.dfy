/**
 Output with line-end translation: the characters between line ends are written in
 one piece each, a carriage return goes in front of every line feed.
 */
module TextOutput {
  import opened MachineWords

  const CR: Byte := 13
  const LF: Byte := 10

  /** Translation byte by byte. */
  function Translate(s: seq<Byte>): seq<Byte> {
    if s == [] then []
    else
      var last := s[|s| - 1];
      Translate(s[..|s| - 1]) + (if last == LF then [CR, LF] else [last])
  }

  /** How the output is cut into writes does not matter. */
  lemma {:induction false} TranslateJoin(a: seq<Byte>, b: seq<Byte>)
    ensures Translate(a + b) == Translate(a) + Translate(b)
    decreases |b|
  {
    if b == [] {
      assert a + b == a;
    } else {
      var c := b[..|b| - 1];
      TranslateJoin(a, c);
      assert (a + b)[..|a + b| - 1] == a + c;
    }
  }

  /** Takes the carriage return before every line feed out again. */
  function Untranslate(t: seq<Byte>): seq<Byte> {
    if t == [] then [] else Untranslate(t[..|t| - LastWidth(t)]) + [t[|t| - 1]]
  }

  /** The bytes the last character takes. */
  function LastWidth(t: seq<Byte>): (n: nat)
    requires t != []
    ensures 1 <= n <= |t|
  {
    if |t| >= 2 && t[|t| - 2] == CR && t[|t| - 1] == LF then 2 else 1
  }

  lemma {:induction false} UntranslateFeed(t: seq<Byte>)
    ensures Untranslate(t + [CR, LF]) == Untranslate(t) + [LF]
  {
    assert (t + [CR, LF])[..|t|] == t;
  }

  lemma {:induction false} UntranslateOther(t: seq<Byte>, b: Byte)
    requires b != LF
    ensures Untranslate(t + [b]) == Untranslate(t) + [b]
  {
    assert (t + [b])[..|t|] == t;
  }

  lemma {:induction false} TranslateLast(init: seq<Byte>, last: Byte)
    ensures Translate(init + [last]) == Translate(init) + if last == LF then [CR, LF] else [last]
  {
    assert (init + [last])[..|init|] == init;
  }

  /** Translation loses nothing. */
  lemma {:induction false} TranslateBack(s: seq<Byte>)
    ensures Untranslate(Translate(s)) == s
    decreases |s|
  {
    if s == [] {
      assert Translate(s) == [];
    } else {
      var init, last := s[..|s| - 1], s[|s| - 1];
      assert s == init + [last];
      TranslateBack(init);
      BackMore(init, last, Translate(init));
    }
  }

  lemma {:induction false} BackMore(init: seq<Byte>, last: Byte, t: seq<Byte>)
    requires t == Translate(init) && Untranslate(t) == init
    ensures Untranslate(Translate(init + [last])) == init + [last]
  {
    TranslateLast(init, last);
    if last == LF {
      UntranslateFeed(t);
    } else {
      UntranslateOther(t, last);
    }
  }

  /** Every line feed that is written follows a carriage return, and nothing else is added. */
  lemma {:induction false} FeedsReturn(s: seq<Byte>)
    ensures forall i :: 0 <= i < |Translate(s)| && Translate(s)[i] == LF ==> i > 0 && Translate(s)[i - 1] == CR
    ensures |Translate(s)| == |s| + Feeds(s)
    decreases |s|
  {
    if s != [] {
      FeedsReturn(s[..|s| - 1]);
    }
  }

  function Feeds(s: seq<Byte>): nat {
    if s == [] then 0 else Feeds(s[..|s| - 1]) + if s[|s| - 1] == LF then 1 else 0
  }

  class Device {
    var out: seq<Byte>

    method Write(s: seq<Byte>) returns (rc: nat)
      modifies this
      ensures out == old(out) + s && rc == |s|
    {
      out := out + s;
      rc := |s|;
    }

    /** Writes buf translated; carriage returns are not counted. */
    method WriteTranslated(buf: seq<Byte>) returns (written: nat)
      modifies this
      ensures out == old(out) + Translate(buf) && written == |buf|
    {
      var ptr, start := 0, 0;
      written := 0;
      while ptr < |buf|
        invariant start <= ptr <= |buf| && written == start
        invariant out + buf[start..ptr] == old(out) + Translate(buf[..ptr])
      {
        ghost var sofar := old(out) + Translate(buf[..ptr]);
        assert buf[..ptr + 1][..ptr] == buf[..ptr];
        assert buf[start..ptr + 1] == buf[start..ptr] + [buf[ptr]];
        if buf[ptr] == LF {
          if start < ptr {
            var rc := Write(buf[start..ptr]);
            written := written + rc;
          }
          assert out == sofar;
          var _ := Write([CR]);
          start := ptr;
          assert out + buf[start..ptr + 1] == sofar + [CR, LF];
        } else {
          assert out + buf[start..ptr + 1] == sofar + [buf[ptr]];
        }
        ptr := ptr + 1;
      }
      assert buf[..ptr] == buf;
      if start < |buf| {
        var rc := Write(buf[start..]);
        written := written + rc;
      }
    }
  }
}
