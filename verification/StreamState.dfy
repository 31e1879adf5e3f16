/**
 The fields of a stream open for update as a value, what one step of the library
 makes of them, and what the user sees of it.
 */
module StreamState {
  import opened MachineWords
  import opened StreamSpec

  /** buf is the buffer, ptr and cnt the macro cursor; rd, wr and eof are the flags.
      npush says how many bytes from ptr on were pushed back. */
  datatype State = State(data: seq<Byte>, pos: nat, buf: seq<Byte>, ptr: nat, cnt: int, bufsiz: nat,
                         hasbuf: bool, rd: bool, wr: bool, eof: bool, npush: nat)
  {
    ghost predicate Good() {
      && !(rd && wr)
      && (if hasbuf then |buf| == bufsiz > 0 else |buf| == 0 && !rd && !wr)
      && 0 <= cnt && ptr + cnt <= |buf| && npush <= cnt
      && (wr ==> ptr > 0 && ptr + cnt == bufsiz && npush == 0)
      && (!rd && !wr ==> ptr == 0 && cnt == 0)
      && (eof ==> cnt == 0 && pos >= |data| && !wr)
      && (!wr ==> Window())
    }

    /** What is behind the pushed back bytes is the file in front of pos. */
    ghost predicate Window() {
      && npush <= cnt && ptr + cnt <= |buf|
      && cnt - npush <= pos && (cnt > npush ==> pos <= |data|)
      && (cnt > npush ==> buf[ptr + npush..ptr + cnt] == data[pos - (cnt - npush)..pos])
    }

    /** Without pushed back bytes there is room for one in front of the buffer. */
    ghost predicate Room() {
      !wr && ptr == 0 && cnt > 0 ==> npush > 0
    }

    /** A write may follow: the stream is not reading, or it has hit the end. */
    predicate Writable() {
      rd ==> eof
    }

    /** The stream as its user sees it. */
    ghost function View(): Ref
      requires Good()
    {
      if wr then Ref(Overlay(data, pos, buf[..ptr]), pos + ptr, [])
      else Ref(data, pos - (cnt - npush), buf[ptr..ptr + npush])
    }

    function WithBuffer(b: seq<Byte>): State {
      this.(buf := b, bufsiz := |b|, hasbuf := true, ptr := 0, cnt := 0)
    }

    /** After the bytes s have been read into the buffer. */
    function Filled(s: seq<Byte>): State
      requires |s| <= |buf|
    {
      this.(pos := pos + |s|, buf := s + buf[|s|..], ptr := 0, cnt := |s|, rd := true, eof := eof || s == [])
    }

    /** After n bytes have been taken out of the buffer. */
    function Taken(n: nat): State {
      this.(ptr := ptr + n, cnt := cnt - n, npush := if n <= npush then npush - n else 0)
    }

    /** After the bytes s have been read past the buffer. */
    function Passed(s: seq<Byte>): State {
      this.(pos := pos + |s|, eof := eof || s == [])
    }

    /** After the buffer has been written out, or dropped. */
    function Flushed(): State
      requires wr ==> ptr <= |buf|
    {
      this.(data := if wr then Overlay(data, pos, buf[..ptr]) else data,
            pos := if wr then pos + ptr else pos,
            wr := false, ptr := 0, cnt := 0, npush := 0)
    }

    /** After the full buffer has been written out and c put into the empty one. */
    function Begun(c: Byte): State
      requires |buf| > 0 && (wr ==> ptr <= |buf|)
    {
      Flushed().(buf := buf[0 := c], ptr := 1, cnt := bufsiz - 1, wr := true, rd := false, eof := false)
    }

    /** After the bytes s have been copied into the buffer. */
    function Stored(s: seq<Byte>): State
      requires ptr + |s| <= |buf|
    {
      this.(buf := buf[..ptr] + s + buf[ptr + |s|..], ptr := ptr + |s|, cnt := cnt - |s|)
    }

    /** After the bytes s have been written past the empty buffer. */
    function Put(s: seq<Byte>): State {
      this.(data := Overlay(data, pos, s), pos := pos + |s|)
    }

    /** Where a seek goes, in the file. */
    function Goal(offset: int, whence: Whence): int
      requires wr ==> ptr <= |buf|
    {
      match whence
      case Set => offset
      case Cur => Flushed().pos + (if rd then offset - cnt else offset)
      case End => |Flushed().data| + offset
    }

    /** After a seek, which flushes first and moves only if the goal is in range. */
    function Sought(offset: int, whence: Whence): State
      requires wr ==> ptr <= |buf|
    {
      var goal := Goal(offset, whence);
      Flushed().(rd := false, eof := false, pos := if goal >= 0 then goal else Flushed().pos)
    }

    /** After c has been pushed back. */
    function Ungot(c: Byte): State
      requires 0 < |buf| && ptr <= |buf|
    {
      var p := if ptr == 0 then 0 else ptr - 1;
      this.(buf := buf[p := c], ptr := p, cnt := cnt + 1, rd := true, eof := false, npush := npush + 1)
    }
  }

  /** A read of n bytes of a file at pos may deliver s: any non-empty part of what is
      there, nothing only at the end. */
  ghost predicate MayRead(data: seq<Byte>, pos: nat, n: nat, s: seq<Byte>) {
    && |s| <= n && (s == [] <==> n == 0 || pos >= |data|)
    && (s != [] ==> pos + |s| <= |data| && s == data[pos..pos + |s|])
  }

  // ---------- reading ----------

  lemma {:induction false} BufferUnseen(st: State, b: seq<Byte>)
    requires st.Good() && !st.hasbuf && |b| > 0
    ensures st.WithBuffer(b).Good() && st.WithBuffer(b).View() == st.View()
  {
  }

  lemma {:induction false} FilledWindow(st: State, s: seq<Byte>)
    requires st.Good() && !st.wr && st.cnt == 0 && st.hasbuf && MayRead(st.data, st.pos, st.bufsiz, s)
    ensures st.Filled(s).Window()
  {
    if s != [] {
      assert (s + st.buf[|s|..])[0..|s|] == s;
    }
  }

  /** Reading ahead is not seen. */
  lemma {:induction false} FilledUnseen(st: State, s: seq<Byte>)
    requires st.Good() && !st.wr && st.cnt == 0 && st.hasbuf && MayRead(st.data, st.pos, st.bufsiz, s)
    ensures st.Filled(s).Good() && st.Filled(s).View() == st.View()
  {
    FilledWindow(st, s);
    assert st.Filled(s).buf[0..0] == [] && st.buf[st.ptr..st.ptr + 0] == [];
  }

  lemma {:induction false} WindowRest(st: State)
    requires st.Good() && !st.wr
    ensures st.cnt <= |st.View().Rest()| && st.View().Rest()[..st.cnt] == st.buf[st.ptr..st.ptr + st.cnt]
  {
    var v := st.View();
    if st.cnt > st.npush {
      assert v.Rest()[..st.cnt] == st.buf[st.ptr..st.ptr + st.npush] + st.data[v.pos..st.pos];
      assert st.buf[st.ptr + st.npush..st.ptr + st.cnt] == st.data[v.pos..st.pos];
    } else {
      assert v.Rest()[..st.cnt] == st.buf[st.ptr..st.ptr + st.cnt];
    }
  }

  lemma {:induction false} Dropped<T>(s: seq<T>, a: nat, b: nat, k: nat)
    requires a + k <= b <= |s|
    ensures s[a..b][k..] == s[a + k..b]
  {
  }

  lemma {:induction false} TakenWindow(st: State, n: nat)
    requires st.Good() && !st.wr && n <= st.cnt
    ensures st.Taken(n).Window()
  {
    if n <= st.npush {
      assert st.Taken(n).cnt - st.Taken(n).npush == st.cnt - st.npush;
    } else if n < st.cnt {
      var k := n - st.npush;
      Dropped(st.buf, st.ptr + st.npush, st.ptr + st.cnt, k);
      Dropped(st.data, st.pos - (st.cnt - st.npush), st.pos, k);
    }
  }

  lemma {:induction false} TakenGood(st: State, n: nat)
    requires st.Good() && !st.wr && n <= st.cnt
    ensures st.Taken(n).Good()
  {
    TakenWindow(st, n);
  }

  lemma {:induction false} TakenView(st: State, n: nat)
    requires st.Good() && !st.wr && n <= st.cnt && st.Taken(n).Good()
    ensures st.Taken(n).View() == st.View().Read(n)
  {
  }

  /** Taking n bytes out of the buffer is reading n bytes. */
  lemma {:induction false} TakenReads(st: State, n: nat)
    requires st.Good() && !st.wr && n <= st.cnt
    ensures st.Taken(n).Good() && st.View().Bytes(n) == st.buf[st.ptr..st.ptr + n]
    ensures st.Taken(n).View() == st.View().Read(n)
  {
    TakenGood(st, n);
    TakenView(st, n);
    WindowRest(st);
    assert st.View().Bytes(n) == st.View().Rest()[..st.cnt][..n];
  }

  /** Reading past the empty buffer is reading. */
  lemma {:induction false} PassedReads(st: State, n: nat, s: seq<Byte>)
    requires st.Good() && !st.wr && st.cnt == 0 && MayRead(st.data, st.pos, n, s) && n > 0
    ensures st.Passed(s).Good() && s == st.View().Bytes(|s|) && st.Passed(s).View() == st.View().Read(|s|)
    ensures s == [] ==> st.View().Bytes(1) == []
  {
    ReadPlain(st.data, st.pos, |s|);
    ReadPlain(st.data, st.pos, 1);
  }

  // ---------- writing ----------

  /** Flushing a stream that is being written, or has nothing ahead, is not seen. */
  lemma {:induction false} FlushedUnseen(st: State)
    requires st.Good()
    ensures st.Flushed().Good() && st.Flushed().View() == Ref(st.Flushed().data, st.Flushed().pos, [])
    ensures st.wr || st.cnt == 0 ==> st.Flushed().View() == st.View()
    ensures !st.wr && st.cnt > 0 ==> st.Flushed().View() != st.View()
  {
  }

  lemma {:induction false} BegunWrites(st: State, c: Byte)
    requires st.Good() && st.hasbuf && st.Writable()
    ensures st.Begun(c).Good() && st.Begun(c).View() == st.View().Write([c])
  {
    FlushedUnseen(st);
    assert st.Begun(c).buf[..1] == [c];
  }

  lemma {:induction false} StoredWrites(st: State, s: seq<Byte>)
    requires st.Good() && st.wr && |s| <= st.cnt
    ensures st.Stored(s).Good() && st.Stored(s).View() == st.View().Write(s)
  {
    assert st.Stored(s).buf[..st.ptr + |s|] == st.buf[..st.ptr] + s;
    OverlayJoin(st.data, st.pos, st.buf[..st.ptr], s);
  }

  lemma {:induction false} PutWrites(st: State, s: seq<Byte>)
    requires st.Good() && !st.wr && st.cnt == 0 && st.Writable() && s != []
    ensures st.Put(s).Good() && st.Put(s).View() == st.View().Write(s)
  {
  }

  lemma {:induction false} SoughtMoves(st: State, offset: int, whence: Whence)
    requires st.Good()
    ensures st.Sought(offset, whence).Good() && st.Goal(offset, whence) == Target(st.View(), offset, whence)
    ensures st.Goal(offset, whence) >= 0 ==>
              st.Sought(offset, whence).View() == Ref(st.View().contents, Target(st.View(), offset, whence), [])
    ensures st.Goal(offset, whence) < 0 ==> (st.Sought(offset, whence).View() == st.View() <==> st.wr || st.cnt == 0)
    ensures st.Goal(offset, whence) < 0 && !st.wr ==> st.Sought(offset, whence).View() == Ref(st.data, st.pos, [])
    ensures st.Flushed().data == st.View().contents
  {
    FlushedUnseen(st);
  }

  /** A stream that has just been opened with a buffer. */
  function Opened(data: seq<Byte>, buf: seq<Byte>): State {
    State(data, 0, buf, 0, 0, |buf|, true, false, false, false, 0)
  }

  /** A file is opened, all of it is read ahead for the first byte, and a seek to a place
      before its start fails: the position moves from 1 to the end. */
  lemma {:induction false} FailedSeekMoves(data: seq<Byte>, buf: seq<Byte>)
    requires 1 < |data| <= |buf|
    ensures Opened(data, buf).Good() && Opened(data, buf).View() == Ref(data, 0, []) && MayRead(data, 0, |buf|, data)
    ensures var st := Opened(data, buf).Filled(data).Taken(1);
            && st.Good() && st.View() == Ref(data, 1, [])
            && st.Goal(-2, Cur) == -1 && st.Sought(-2, Cur).View() == Ref(data, |data|, [])
  {
    assert data[0..|data|] == data;
    FilledUnseen(Opened(data, buf), data);
    var st := Opened(data, buf).Filled(data);
    TakenReads(st, 1);
    ReadPlain(data, 0, 1);
    SoughtMoves(st.Taken(1), -2, Cur);
  }

  lemma {:induction false} UngotPushes(st: State, c: Byte)
    requires st.Good() && !st.wr && st.hasbuf && (st.ptr > 0 || st.cnt == 0)
    ensures st.Ungot(c).Good() && st.Ungot(c).View() == st.View().(pushed := [c] + st.View().pushed)
  {
    var st' := st.Ungot(c);
    assert st'.buf[st'.ptr..st'.ptr + st'.npush] == [c] + st.buf[st.ptr..st.ptr + st.npush];
    if st.cnt > st.npush {
      assert st'.buf[st'.ptr + st'.npush..st'.ptr + st'.cnt] == st.buf[st.ptr + st.npush..st.ptr + st.cnt];
    }
  }
}
