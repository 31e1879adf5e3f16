/**
 The buffered stream for update ("r+"): a buffer over a positioned file that the
 getc and putc macros work on directly. Reads of the file may be short.
 */
module Stream {
  import opened MachineWords
  import opened StreamSpec
  import opened StreamState

  const BUFSIZ: nat := 512

  class File {
    // the open file
    var data: seq<Byte>
    var pos: nat
    // the stream
    var base: array<Byte>
    var ptr: nat
    var cnt: int
    var bufsiz: nat
    var hasbuf: bool
    var rd: bool
    var wr: bool
    var eof: bool
    ghost var npush: nat

    ghost function St(): State
      reads this, base
    {
      State(data, pos, base[..], ptr, cnt, bufsiz, hasbuf, rd, wr, eof, npush)
    }

    ghost predicate Ok()
      reads this, base
    {
      St().Good()
    }

    ghost predicate Room()
      reads this, base
    {
      St().Room()
    }

    /** The stream as its user sees it. */
    ghost function View(): Ref
      requires Ok()
      reads this, base
    {
      St().View()
    }

    /** Opens a file for update; size is the buffer size set with setvbuf, or 0. */
    constructor (contents: seq<Byte>, size: nat)
      ensures Ok() && Room() && fresh(base) && View() == Ref(contents, 0, [])
      ensures data == contents && !rd && !wr
    {
      data, pos := contents, 0;
      base := new Byte[size];
      ptr, cnt, bufsiz, hasbuf := 0, 0, size, size > 0;
      rd, wr, eof, npush := false, false, false, 0;
    }

    // ---------- the file below ----------

    /** Reads at most n bytes of the file, at least one unless it is at its end. */
    method Read(n: nat) returns (s: seq<Byte>)
      modifies this`pos
      ensures MayRead(data, old(pos), n, s) && pos == old(pos) + |s|
    {
      if n == 0 || pos >= |data| {
        return [];
      }
      var k: nat :| 1 <= k <= n && pos + k <= |data|;
      s := data[pos..pos + k];
      pos := pos + k;
    }

    method Write(s: seq<Byte>)
      modifies this`data, this`pos
      ensures data == Overlay(old(data), old(pos), s) && pos == old(pos) + |s|
    {
      data := Overlay(data, pos, s);
      pos := pos + |s|;
    }

    // ---------- the buffer ----------

    method GetBuf()
      requires Ok() && !hasbuf
      modifies this`base, this`bufsiz, this`hasbuf, this`ptr, this`cnt
      ensures Ok() && hasbuf && fresh(base) && bufsiz == BUFSIZ && View() == old(View())
      ensures ptr == 0 && cnt == 0
    {
      var b := new Byte[BUFSIZ];
      BufferUnseen(St(), b[..]);
      base := b;
      hasbuf, bufsiz := true, BUFSIZ;
      ptr, cnt := 0, 0;
    }

    /** Copies s to the front of the buffer. */
    method Copy(at: nat, s: seq<Byte>)
      requires at + |s| <= base.Length
      modifies base
      ensures base[..] == old(base[..at]) + s + old(base[at + |s|..])
    {
      forall i | 0 <= i < |s| {
        base[at + i] := s[i];
      }
    }

    /** Reads the next part of the file into the empty buffer. */
    method Fill()
      requires Ok() && !wr && cnt == 0 && hasbuf
      modifies this`pos, this`ptr, this`cnt, this`rd, this`eof, base
      ensures Ok() && View() == old(View()) && rd && npush == 0
      ensures cnt == 0 <==> old(pos) >= |data|
      ensures cnt == 0 ==> eof
    {
      ghost var st := St();
      rd := true;
      ptr := 0;
      var s := Read(bufsiz);
      Copy(0, s);
      assert base[..] == s + st.buf[|s|..];
      cnt := |s|;
      if cnt == 0 {
        eof := true;
      }
      assert St() == st.Filled(s);
      FilledUnseen(st, s);
    }

    /** Takes n bytes from the buffer. */
    method Take(n: nat) returns (s: seq<Byte>)
      requires Ok() && !wr && n <= cnt
      modifies this`ptr, this`cnt, this`npush
      ensures Ok() && s == old(View()).Bytes(n) && |s| == n && View() == old(View()).Read(n)
      ensures ptr == old(ptr) + n && cnt == old(cnt) - n
    {
      ghost var st := St();
      TakenReads(st, n);
      s := base[ptr..ptr + n];
      assert s == st.buf[st.ptr..st.ptr + n];
      cnt := cnt - n;
      ptr := ptr + n;
      npush := if n <= npush then npush - n else 0;
      assert St() == st.Taken(n);
    }

    /** The slow path of getc: fills the buffer and takes the first byte. */
    method FilBuf() returns (c: int)
      requires Ok() && !wr && cnt == 0
      modifies this, base
      ensures Ok() && !wr && Room() && (base == old(base) || fresh(base)) && hasbuf && data == old(data)
      ensures c == First(old(View()).Bytes(1)) && View() == old(View()).Read(1)
      ensures c == EOF ==> eof
      ensures (old(hasbuf) ==> bufsiz == old(bufsiz))
    {
      ReadPlain(data, pos, 1);
      if !hasbuf {
        GetBuf();
      }
      Fill();
      if cnt == 0 {
        return EOF;
      }
      var s := Take(1);
      c := s[0];
    }

    /** The getc macro. */
    method GetC() returns (c: int)
      requires Ok() && !wr && Room()
      modifies this, base
      ensures Ok() && !wr && Room() && (base == old(base) || fresh(base)) && data == old(data)
      ensures c == First(old(View()).Bytes(1)) && View() == old(View()).Read(1)
      ensures c == EOF ==> eof
    {
      if cnt > 0 {
        var s := Take(1);
        c := s[0];
      } else {
        c := FilBuf();
      }
    }

    // ---------- fread ----------

    /** One round of the fread loop: copies from the buffer, reads whole buffers
        directly, or fills the buffer. Delivers nothing only at the end of the file. */
    method ReadSome(count: nat, bufsize: nat) returns (s: seq<Byte>)
      requires Ok() && !wr && Room() && count > 0 && bufsize > 0
      modifies this, base
      ensures Ok() && !wr && Room() && (base == old(base) || fresh(base)) && data == old(data)
      ensures |s| <= count && s == old(View()).Bytes(|s|) && View() == old(View()).Read(|s|)
      ensures s == [] ==> eof && old(View()).Bytes(1) == []
    {
      if hasbuf && cnt != 0 {
        s := Take(if count < cnt then count else cnt);
      } else if count >= bufsize {
        var n := WholeBuffers(count, bufsize);
        s := ReadPast(n);
      } else {
        s := ReadByte();
      }
    }

    /** Fills the buffer and takes the first byte. */
    method ReadByte() returns (s: seq<Byte>)
      requires Ok() && !wr && cnt == 0
      modifies this, base
      ensures Ok() && !wr && Room() && (base == old(base) || fresh(base)) && data == old(data)
      ensures |s| <= 1 && s == old(View()).Bytes(|s|) && View() == old(View()).Read(|s|)
      ensures s == [] ==> eof && old(View()).Bytes(1) == []
    {
      var c := FilBuf();
      s := One(old(View()), c);
    }

    method ReadPast(n: nat) returns (s: seq<Byte>)
      requires Ok() && !wr && cnt == 0 && n > 0
      modifies this`pos, this`eof
      ensures Ok() && |s| <= n && s == old(View()).Bytes(|s|) && View() == old(View()).Read(|s|)
      ensures s == [] ==> eof && old(View()).Bytes(1) == []
    {
      s := Read(n);
      PassedReads(old(St()), n, s);
      if s == [] {
        eof := true;
      }
      assert St() == old(St()).Passed(s);
    }

    /** The fread loop over bytes. */
    method ReadBytes(total: nat) returns (bytes: seq<Byte>)
      requires Ok() && !wr && Room()
      modifies this, base
      ensures Ok() && !wr && Room() && (base == old(base) || fresh(base)) && data == old(data)
      ensures bytes == old(View()).Bytes(total) && View() == old(View()).Read(total)
      ensures |bytes| < total ==> eof
      ensures total == 0 ==> rd == old(rd) && eof == old(eof)
    {
      ghost var v := View();
      var bufsize := if hasbuf then bufsiz else BUFSIZ;
      bytes := [];
      while |bytes| < total
        invariant Ok() && !wr && Room() && (base == old(base) || fresh(base)) && data == old(data)
        invariant |bytes| <= total && bytes == v.Bytes(|bytes|) && View() == v.Read(|bytes|) && bufsize > 0
        invariant bytes == [] ==> rd == old(rd) && eof == old(eof)
        decreases total - |bytes|
      {
        ghost var v1 := View();
        var s := ReadSome(total - |bytes|, bufsize);
        ReadJoin(v, |bytes|, |s|);
        if s == [] {
          NothingLeft(v, bytes, v1, total);
          return;
        }
        bytes := bytes + s;
        bufsize := if hasbuf then bufsiz else bufsize;
      }
    }

    /** Reads num elements of the given size; n is the number of whole elements. */
    method FRead(size: nat, num: nat) returns (bytes: seq<Byte>, n: nat)
      requires Ok() && !wr && Room()
      modifies this, base
      ensures Ok() && !wr && Room() && (base == old(base) || fresh(base)) && data == old(data)
      ensures bytes == old(View()).Bytes(Product(size, num)) && View() == old(View()).Read(Product(size, num))
      ensures Counts(size, num, |bytes|, n) && (|bytes| < Product(size, num) ==> eof)
      ensures Product(size, num) == 0 ==> rd == old(rd) && eof == old(eof)
    {
      bytes := ReadBytes(Product(size, num));
      ElementsCount(size, num, |bytes|);
      n := Elements(size, num, |bytes|);
    }

    // ---------- writing ----------

    /** Writes the buffer out, or drops what has been read ahead. */
    method FFlush()
      requires Ok()
      modifies this`data, this`pos, this`ptr, this`cnt, this`wr, this`npush
      ensures Ok() && Room() && !wr && cnt == 0 && View() == Ref(data, pos, [])
      ensures old(wr) || old(cnt) == 0 ==> View() == old(View())
      ensures !old(wr) && old(cnt) > 0 ==> View() != old(View())
      ensures data == old(View()).contents
    {
      FlushedUnseen(St());
      Drop();
    }

    method Drop()
      requires wr ==> ptr <= base.Length
      modifies this`data, this`pos, this`ptr, this`cnt, this`wr, this`npush
      ensures St() == old(St()).Flushed()
    {
      if wr {
        assert base[..ptr] == base[..][..ptr];
        Write(base[..ptr]);
        wr := false;
      }
      ptr := 0;
      cnt := 0;
      npush := 0;
    }

    /** The slow path of putc: writes the full buffer out and starts a new one. */
    method FlsBuf(c: Byte)
      requires Ok() && cnt == 0 && St().Writable()
      modifies this, base
      ensures Ok() && Room() && wr && (base == old(base) || fresh(base)) && View() == old(View()).Write([c])
      ensures old(hasbuf) ==> bufsiz == old(bufsiz)
    {
      if !hasbuf {
        GetBuf();
      }
      Begin(c);
    }

    method Begin(c: Byte)
      requires Ok() && cnt == 0 && St().Writable() && hasbuf
      modifies this`data, this`pos, this`ptr, this`cnt, this`rd, this`wr, this`eof, this`npush, base
      ensures Ok() && Room() && wr && View() == old(View()).Write([c])
    {
      BegunWrites(St(), c);
      if rd {
        ptr := 0;
        rd := false;
      }
      eof := false;
      var count := ptr;
      if count > 0 {
        assert base[..count] == old(St()).buf[..count];
        Write(base[..count]);
      }
      wr := true;
      ptr, cnt, npush := 1, bufsiz - 1, 0;
      base[0] := c;
      assert St() == old(St()).Begun(c);
    }

    /** Copies s into the buffer of a stream that is being written. */
    method Store(s: seq<Byte>)
      requires Ok() && wr && |s| <= cnt
      modifies this`ptr, this`cnt, base
      ensures Ok() && Room() && View() == old(View()).Write(s)
    {
      StoredWrites(St(), s);
      Copy(ptr, s);
      ptr, cnt := ptr + |s|, cnt - |s|;
      assert St() == old(St()).Stored(s);
    }

    /** The putc macro. */
    method PutC(c: Byte)
      requires Ok() && St().Writable()
      modifies this, base
      ensures Ok() && Room() && St().Writable() && (base == old(base) || fresh(base))
      ensures View() == old(View()).Write([c])
    {
      if cnt > 0 {
        Store([c]);
      } else {
        FlsBuf(c);
      }
    }

    method WritePast(s: seq<Byte>)
      requires Ok() && Room() && !wr && cnt == 0 && St().Writable() && s != []
      modifies this`data, this`pos
      ensures Ok() && Room() && View() == old(View()).Write(s)
    {
      PutWrites(St(), s);
      Write(s);
      assert St() == old(St()).Put(s);
    }

    /** Writes s past the buffer, which is full or empty, after flushing it. */
    method WriteBlocks(s: seq<Byte>)
      requires Ok() && Room() && St().Writable() && cnt == 0 && s != []
      modifies this`data, this`pos, this`ptr, this`cnt, this`wr, this`npush
      ensures Ok() && Room() && St().Writable() && View() == old(View()).Write(s)
    {
      if hasbuf {
        FFlush();
      }
      WritePast(s);
    }

    /** One round of the fwrite loop; writes n more bytes of s. */
    method WriteSome(s: seq<Byte>, done: nat, bufsize: nat) returns (n: nat)
      requires Ok() && Room() && St().Writable() && done < |s| && bufsize > 0
      modifies this, base
      ensures Ok() && Room() && St().Writable() && (base == old(base) || fresh(base))
      ensures 0 < n <= |s| - done && View() == old(View()).Write(s[done..done + n])
    {
      var count := |s| - done;
      if hasbuf && cnt != 0 {
        n := if count < cnt then count else cnt;
      } else if count >= bufsize {
        n := WholeBuffers(count, bufsize);
      } else {
        n := 1;
      }
      WritePart(s[done..done + n], count >= bufsize);
    }

    /** Puts part into the buffer if it is in use, past it if there is enough to
        write directly, or at the front of a new buffer. */
    method WritePart(part: seq<Byte>, direct: bool)
      requires Ok() && Room() && St().Writable() && part != []
      requires if hasbuf && cnt != 0 then |part| <= cnt else direct || |part| == 1
      modifies this, base
      ensures Ok() && Room() && St().Writable() && (base == old(base) || fresh(base))
      ensures View() == old(View()).Write(part)
    {
      if hasbuf && cnt != 0 {
        Store(part);
      } else if direct {
        WriteBlocks(part);
      } else {
        assert part == [part[0]];
        FlsBuf(part[0]);
      }
    }

    method WriteBytes(s: seq<Byte>)
      requires Ok() && Room() && St().Writable()
      modifies this, base
      ensures Ok() && Room() && St().Writable() && (base == old(base) || fresh(base))
      ensures View() == old(View()).Write(s) && (s == [] ==> wr == old(wr))
    {
      ghost var v := View();
      var bufsize := if hasbuf then bufsiz else BUFSIZ;
      var done := 0;
      WriteNothing(v);
      while done < |s|
        invariant Ok() && Room() && St().Writable() && (base == old(base) || fresh(base))
        invariant done <= |s| && View() == v.Write(s[..done]) && bufsize > 0 && (done == 0 ==> wr == old(wr))
      {
        var n := WriteSome(s, done, bufsize);
        WriteMore(v, s, done, n);
        done := done + n;
        bufsize := if hasbuf then bufsiz else bufsize;
      }
      assert s[..done] == s;
    }

    /** Writes num elements of the given size from the front of buffer. */
    method FWrite(buffer: seq<Byte>, size: nat, num: nat) returns (n: nat)
      requires Ok() && Room() && St().Writable() && Product(size, num) <= |buffer|
      modifies this, base
      ensures Ok() && Room() && St().Writable() && (base == old(base) || fresh(base))
      ensures View() == old(View()).Write(buffer[..Product(size, num)])
      ensures Counts(size, num, Product(size, num), n)
      ensures Product(size, num) == 0 ==> wr == old(wr)
    {
      var total := Product(size, num);
      WriteBytes(buffer[..total]);
      ElementsCount(size, num, total);
      n := Elements(size, num, total);
    }

    // ---------- positioning ----------

    /** Moves to the given place; fails if that is before the start of the file. A
        failed seek still drops what was read ahead. */
    method FSeek(offset: int, whence: Whence) returns (ok: bool)
      requires Ok() && Room()
      modifies this
      ensures Ok() && Room() && !wr && !rd && !eof && base == old(base)
      ensures ok <==> Target(old(View()), offset, whence) >= 0
      ensures ok ==> View() == Ref(old(View()).contents, Target(old(View()), offset, whence), [])
      ensures !ok ==> (View() == old(View()) <==> old(wr) || old(cnt) == 0)
      ensures !ok && !old(wr) ==> View() == Ref(data, old(pos), [])
      ensures data == old(View()).contents
    {
      SoughtMoves(St(), offset, whence);
      eof := false;
      var off := if whence.Cur? && rd then offset - cnt else offset;
      Drop();
      wr, rd := false, false;
      var target := match whence
        case Set => off
        case Cur => pos + off
        case End => |data| + off;
      ok := target >= 0;
      if ok {
        pos := target;
      }
      assert St() == old(St()).Sought(offset, whence);
    }

    /** The position of the next byte to be read or written. */
    method FTell() returns (p: int)
      requires Ok()
      ensures p == View().Tell()
    {
      p := pos;
      if rd || !hasbuf {
        p := p - cnt;
      } else if wr {
        p := p + ptr;
      }
    }

    /** Pushes c back; refused for EOF, while writing, and when there is no room. */
    method UngetC(c: int) returns (r: int)
      requires Ok() && Room() && (c == EOF || 0 <= c < 256)
      modifies this, base
      ensures Ok() && Room() && (base == old(base) || fresh(base)) && data == old(data)
      ensures r == EOF || r == c
      ensures r == EOF ==> View() == old(View()) && (c == EOF || old(wr) || old(View()).pushed != [])
      ensures r == EOF ==> wr == old(wr) && (St().Writable() <==> old(St()).Writable())
      ensures r != EOF ==> !wr && View() == old(View()).(pushed := [c] + old(View()).pushed)
    {
      if c == EOF || wr {
        return EOF;
      }
      if !hasbuf {
        GetBuf();
      }
      if ptr == 0 {
        if cnt != 0 {
          return EOF;
        }
      }
      PushBack(c);
      r := c;
    }

    method PushBack(c: Byte)
      requires Ok() && Room() && !wr && hasbuf && (ptr > 0 || cnt == 0)
      modifies this`ptr, this`cnt, this`eof, this`rd, this`npush, base
      ensures Ok() && Room() && View() == old(View()).(pushed := [c] + old(View()).pushed)
    {
      UngotPushes(St(), c);
      if ptr == 0 {
        ptr := ptr + 1;
      }
      ptr := ptr - 1;
      base[ptr] := c;
      cnt := cnt + 1;
      eof := false;
      rd := true;
      npush := npush + 1;
      assert St() == old(St()).Ungot(c);
    }
  }

  /** The result of filbuf as bytes. */
  method One(ghost v: Ref, c: int) returns (s: seq<Byte>)
    requires c == First(v.Bytes(1))
    ensures s == v.Bytes(1) && |s| <= 1 && v.Read(1) == v.Read(|s|) && (s == [] <==> c == EOF)
  {
    s := if c == EOF then [] else [c];
  }

  /** The largest multiple of bufsize that is at most count. */
  method WholeBuffers(count: nat, bufsize: nat) returns (n: nat)
    requires 0 < bufsize <= count
    ensures 0 < n <= count < n + bufsize
  {
    n := count - count % bufsize;
  }

  function First(s: seq<Byte>): int {
    if s == [] then EOF else s[0]
  }

  /** The number of bytes of num elements, as 32-bit unsigned arithmetic has it. */
  function Product(size: nat, num: nat): (total: nat)
    ensures total > 0 ==> size > 0
  {
    (size * num) % 0x1_0000_0000
  }

  /** The product wraps around: it is the number of bytes exactly when that fits a word. */
  lemma {:induction false} ProductExact(size: nat, num: nat)
    ensures Product(size, num) == size * num <==> size * num < 0x1_0000_0000
    ensures exists q: nat :: size * num == 0x1_0000_0000 * q + Product(size, num)
    ensures Product(size, num) < 0x1_0000_0000
  {
    var n := size * num;
    assert n == 0x1_0000_0000 * (n / 0x1_0000_0000) + Product(size, num);
  }

  /** How many elements got bytes make up. */
  function Elements(size: nat, num: nat, got: nat): nat {
    var total := Product(size, num);
    if total == 0 then 0 else if got == total then num else got / size
  }

  /** n is the number of whole elements that got bytes make up. When the byte count wraps
      around, all bytes of it count for all elements. */
  ghost predicate Counts(size: nat, num: nat, got: nat, n: nat) {
    var bytes, total := size * num, (size * num) % 0x1_0000_0000;
    && (total == 0 ==> n == 0)
    && (total > 0 && got == total ==> n == num)
    && (total > 0 && got < total ==> n * size <= got < (n + 1) * size)
    && (0 < bytes < 0x1_0000_0000 && got <= total ==> n <= num && n * size <= got < (n + 1) * size && (n == num <==> got == bytes))
  }

  lemma {:induction false} ElementsCount(size: nat, num: nat, got: nat)
    requires got <= Product(size, num)
    ensures Counts(size, num, got, Elements(size, num, got))
  {
    var bytes, n := size * num, Elements(size, num, got);
    if size > 0 {
      Whole(got, size);
      if n >= num && got < bytes {
        Times(num, n, size);
      }
      assert (num + 1) * size == bytes + size;
    }
  }

  lemma {:induction false} Whole(got: nat, size: nat)
    requires size > 0
    ensures got / size * size <= got < (got / size + 1) * size
  {
    assert got == got / size * size + got % size;
    assert (got / size + 1) * size == got / size * size + size;
  }

  lemma {:induction false} Times(a: nat, b: nat, size: nat)
    requires a <= b
    ensures a * size <= b * size
  {
    assert (b - a) * size >= 0;
  }

  /** There is only one such number. */
  lemma {:induction false} CountsOne(size: nat, num: nat, got: nat, m: nat, n: nat)
    requires got <= Product(size, num) && Counts(size, num, got, m) && Counts(size, num, got, n)
    ensures m == n
  {
    if m < n {
      Times(m + 1, n, size);
    } else if n < m {
      Times(n + 1, m, size);
    }
  }

  lemma {:induction false} WriteMore(v: Ref, s: seq<Byte>, done: nat, n: nat)
    requires done + n <= |s|
    ensures v.Write(s[..done]).Write(s[done..done + n]) == v.Write(s[..done + n])
  {
    WriteJoin(v, s[..done], s[done..done + n]);
    assert s[..done] + s[done..done + n] == s[..done + n];
  }

  lemma {:induction false} WriteNothing(v: Ref)
    ensures v.Write([]) == v
  {
  }

  lemma {:induction false} NothingLeft(v: Ref, bytes: seq<Byte>, v1: Ref, total: nat)
    requires bytes == v.Bytes(|bytes|) && v1 == v.Read(|bytes|) && v1.Bytes(1) == [] && |bytes| <= total
    ensures v.Bytes(total) == bytes && v.Read(total) == v1
  {
    SkipRest(v, |bytes|);
  }
}
