/** The debugger's side of the line. */
module DebugSession {
  import opened Arithmetic
  import opened MachineWords
  import opened Options
  import opened DebugProtocol

  class Session {
    /** What has been sent, and what has arrived but has not been read yet. */
    var sent: seq<Byte>
    var input: seq<Byte>

    method Send(buffer: seq<Byte>)
      modifies `sent
      ensures sent == old(sent) + buffer
    {
      sent := sent + buffer;
    }

    /** Reads one byte. A read waits until there is one. */
    method Recv() returns (b: Byte)
      requires input != []
      modifies `input
      ensures b == old(input)[0] && input == old(input)[1..]
    {
      b := input[0];
      input := input[1..];
    }

    // ---------- run-length coding ----------

    /** The end of the run that starts at p. */
    static method RunEnd(data: seq<Byte>, p: nat) returns (q: nat)
      requires p < |data|
      ensures q == p + First(data[p..])
    {
      ghost var s := data[p..];
      q := p + 1;
      while q < |data| && q - p < 256 && data[q] == data[p]
        invariant p < q <= |data| && q - p <= 256
        invariant forall i :: 0 <= i < q - p ==> s[i] == s[0]
        invariant Run(s, 1) == Run(s, q - p)
        decreases |data| - q
      {
        assert s[q - p] == data[q];
        q := q + 1;
      }
    }

    /** What is to come when the bytes from q to p are held back. */
    ghost static function Pending(data: seq<Byte>, q: nat, p: nat): seq<Byte>
      requires q <= p <= |data|
    {
      data[q..p] + Encode(data[p..], RLE_ESCAPE)
    }

    static lemma {:induction false} PendingRun(data: seq<Byte>, q: nat, p: nat, sent: seq<Byte>)
      requires q <= p < |data| && Escaped(data[p..], RLE_ESCAPE)
      ensures var e := p + First(data[p..]);
              sent + Pending(data, q, p) == (sent + data[q..p] + [RLE_ESCAPE, data[p], (e - p) % 256]) + Pending(data, e, e)
    {
      var s := data[p..];
      var n := First(s);
      assert s[n..] == data[p + n..];
      assert Encode(s, RLE_ESCAPE) == [RLE_ESCAPE, data[p], n % 256] + Encode(data[p + n..], RLE_ESCAPE);
      assert data[p + n..p + n] == [];
    }

    static lemma {:induction false} PendingOne(data: seq<Byte>, q: nat, p: nat)
      requires q <= p < |data| && !Escaped(data[p..], RLE_ESCAPE)
      ensures Pending(data, q, p) == Pending(data, q, p + 1)
    {
      assert data[p..][1..] == data[p + 1..];
      assert data[q..p + 1] == data[q..p] + [data[p]];
    }

    static lemma {:induction false} PendingEnds(data: seq<Byte>, q: nat)
      requires q <= |data|
      ensures Pending(data, 0, 0) == Encode(data, RLE_ESCAPE) && Pending(data, q, |data|) == data[q..|data|]
    {
      assert data[0..0] == [] && data[0..] == data && data[|data|..] == [];
    }

    /** Sends the bytes held back and then a run. */
    method SendRun(data: seq<Byte>, q: nat, p: nat) returns (end: nat)
      requires q <= p < |data|
      modifies `sent
      ensures end == p + First(data[p..])
      ensures sent == old(sent) + data[q..p] + [RLE_ESCAPE, data[p], (end - p) % 256]
    {
      if p > q {
        Send(data[q..p]);
      }
      end := RunEnd(data, p);
      Send([RLE_ESCAPE, data[p], (end - p) % 256]);
    }

    /** Sends the next run, or holds back one more byte. */
    method SendNext(data: seq<Byte>, q: nat, p: nat, ghost all: seq<Byte>) returns (q1: nat, p1: nat)
      requires q <= p < |data| && sent + Pending(data, q, p) == all
      modifies `sent
      ensures q1 <= p1 <= |data| && p < p1 && sent + Pending(data, q1, p1) == all
    {
      var left := |data| - p;
      if data[p] == RLE_ESCAPE || (left > 3 && data[p] == data[p + 1] && data[p] == data[p + 2]) {
        PendingRun(data, q, p, sent);
        q1 := SendRun(data, q, p);
        p1 := q1;
      } else {
        PendingOne(data, q, p);
        q1, p1 := q, p + 1;
      }
    }

    /** Sends data, with runs in place of escape bytes and of equal bytes. */
    method SendRle(data: seq<Byte>)
      modifies `sent
      ensures sent == old(sent) + Encode(data, RLE_ESCAPE)
    {
      var p, q, left := 0, 0, |data|;
      ghost var all := sent + Pending(data, 0, 0);
      PendingEnds(data, 0);
      while left > 0
        invariant 0 <= q <= p <= |data| && left == |data| - p && sent + Pending(data, q, p) == all
        decreases left
      {
        q, p := SendNext(data, q, p, all);
        left := |data| - p;
      }
      PendingEnds(data, q);
      if p > q {
        Send(data[q..p]);
      }
    }

    /** Writes n equal bytes. */
    static method Fill(data: array<Byte>, p: nat, value: Byte, n: nat)
      requires p + n <= data.Length
      modifies data
      ensures data[..p + n] == old(data[..p]) + Repeat(value, n)
    {
      for i := 0 to n
        invariant data[..p] == old(data[..p])
        invariant forall k :: p <= k < p + i ==> data[k] == value
      {
        data[p + i] := value;
      }
      assert data[..p + n] == data[..p] + data[p..p + n];
    }

    static lemma {:induction false} DecodeFirst(s: seq<Byte>, len: nat)
      requires len > 0 && Decode(s, len, RLE_ESCAPE).Some?
      ensures s != [] && (s[0] == RLE_ESCAPE ==> |s| >= 3)
      ensures s[0] != RLE_ESCAPE ==>
        && Decode(s[1..], len - 1, RLE_ESCAPE).Some?
        && Decode(s, len, RLE_ESCAPE) == Prefixed([s[0]], Decode(s[1..], len - 1, RLE_ESCAPE))
      ensures s[0] == RLE_ESCAPE ==>
        var n := if s[2] == 0 then 256 else s[2];
        && n <= len && Decode(s[3..], len - n, RLE_ESCAPE).Some?
        && Decode(s, len, RLE_ESCAPE) == Prefixed(Repeat(s[1], n), Decode(s[3..], len - n, RLE_ESCAPE))
    {
    }

    static lemma {:induction false} PrefixedTwice(a: seq<Byte>, b: seq<Byte>, r: Option<Decoded>)
      ensures Prefixed(a, Prefixed(b, r)) == Prefixed(a + b, r)
    {
      if r.Some? {
        assert a + (b + r.value.data) == (a + b) + r.value.data;
      }
    }

    /** Receives data: as much as can be decoded. */
    method RecvRle(data: array<Byte>, len: nat)
      requires len <= data.Length && Decode(input, len, RLE_ESCAPE).Some?
      modifies `input, data
      ensures var d := old(Decode(input, len, RLE_ESCAPE)).value; data[..len] == d.data && input == d.rest
    {
      var p := 0;
      ghost var d := Decode(input, len, RLE_ESCAPE);
      assert data[..0] == [] && [] + d.value.data == d.value.data;
      while p < len
        invariant p <= len && Decode(input, len - p, RLE_ESCAPE).Some?
        invariant d == Prefixed(data[..p], Decode(input, len - p, RLE_ESCAPE))
        decreases len - p
      {
        p := RecvPart(data, p, len, d);
      }
    }

    /** Receives one byte or one run. */
    method RecvPart(data: array<Byte>, p: nat, len: nat, ghost d: Option<Decoded>) returns (q: nat)
      requires p < len <= data.Length && Decode(input, len - p, RLE_ESCAPE).Some?
      requires d == Prefixed(data[..p], Decode(input, len - p, RLE_ESCAPE))
      modifies `input, data
      ensures p < q <= len && Decode(input, len - q, RLE_ESCAPE).Some?
      ensures d == Prefixed(data[..q], Decode(input, len - q, RLE_ESCAPE))
    {
      DecodeFirst(input, len - p);
      ghost var before, s := data[..p], input;
      var ch := Recv();
      if ch == RLE_ESCAPE {
        var value := Recv();
        var count := Recv();
        var n := if count == 0 then 256 else count;
        Fill(data, p, value, n);
        q := p + n;
        assert input == s[3..];
        PrefixedTwice(before, Repeat(value, n), Decode(input, len - q, RLE_ESCAPE));
      } else {
        data[p] := ch;
        q := p + 1;
        assert data[..q] == before + [ch];
        PrefixedTwice(before, [ch], Decode(input, len - q, RLE_ESCAPE));
      }
    }

    // ---------- packets ----------

    /** Adds bytes to a checksum of one byte. */
    static method AddSum(checksum: Byte, s: seq<Byte>) returns (c: Byte)
      ensures c == (checksum + Sum(s)) % 256
    {
      c := checksum;
      assert s[..0] == [];
      for n := 0 to |s|
        invariant c == (checksum + Sum(s[..n])) % 256
      {
        assert s[..n + 1][..n] == s[..n];
        c := (c + s[n]) % 256;
      }
      assert s[..|s|] == s;
    }

    /** The checksum over a header and data. */
    static method SumUp(header: seq<Byte>, data: seq<Byte>) returns (c: Byte)
      ensures c == (Sum(header) + Sum(data)) % 256
    {
      c := AddSum(0, header);
      c := AddSum(c, data);
    }

    static lemma {:induction false} BalanceMod(n: nat)
      ensures Balance(n % 256) == Balance(n)
    {
      var q, r := n / 256, n % 256;
      if r == 0 {
        ModUnique(0 - n, 256, 0 - q, 0);
      } else {
        ModUnique(0 - n, 256, 0 - q - 1, 256 - r);
        ModUnique(0 - r, 256, -1, 256 - r);
      }
    }

    /** Sends a packet. */
    method SendPacket(cmd: int, id: Byte, data: seq<Byte>)
      requires |data| < 0x1_0000_0000
      modifies `sent
      ensures sent == old(sent) + Packet(cmd % 256, id, data)
    {
      var header := Header(cmd % 256, id, 0, |data|);
      var checksum := SumUp(HeaderBytes(header), data);
      BalanceMod(Sum(HeaderBytes(header)) + Sum(data));
      header := header.(checksum := Balance(checksum));
      assert header == HeaderOf(cmd % 256, id, data);
      Send(HeaderBytes(header));
      SendRle(data);
    }

    /** Waits for a signature. */
    method FindSignature()
      requires Skip(input) != []
      modifies `input
      ensures old(Skip(input))[0] == SIGNATURE && input == old(Skip(input))[1..]
    {
      ghost var t := Skip(input);
      SkipFinds(input);
      var found := false;
      while !found
        invariant if found then t != [] && input == t[1..] else input != [] && Skip(input) == t
        decreases |input|
      {
        var b := Recv();
        found := b == SIGNATURE;
        if !found {
          SkipFinds(input);
        }
      }
    }

    static lemma {:induction false} SkipFinds(s: seq<Byte>)
      ensures Skip(s) == [] || Skip(s)[0] == SIGNATURE
      ensures s == [] ==> Skip(s) == []
    {
      if s != [] && s[0] != SIGNATURE {
        SkipFinds(s[1..]);
      }
    }

    /** Reads a header; bytes is the header as it was on the line. */
    method RecvHeader() returns (h: Header, bytes: seq<Byte>)
      requires |Skip(input)| >= 8
      modifies `input
      ensures var t := old(Skip(input));
              && input == t[8..] && bytes == t[..8] && h == Header(t[1], t[2], t[3], Number(t[4..8]))
    {
      ghost var t := Skip(input);
      FindSignature();
      var cmd := Recv();
      var id := Recv();
      var checksum := Recv();
      var l0 := Recv();
      var l1 := Recv();
      var l2 := Recv();
      var l3 := Recv();
      h := Header(cmd, id, checksum, Number([l0, l1, l2, l3]));
      bytes := [SIGNATURE, cmd, id, checksum, l0, l1, l2, l3];
      assert [l0, l1, l2, l3] == t[4..8];
    }

    /** Receives the data of a packet and checks the sum: -2 if it is not zero. */
    method RecvBody(h: Header, bytes: seq<Byte>, data: array<Byte>) returns (rc: int)
      requires h.len <= data.Length && Decode(input, h.len, RLE_ESCAPE).Some?
      modifies `input, data
      ensures var d := old(Decode(input, h.len, RLE_ESCAPE)).value;
              && input == d.rest && data[..h.len] == d.data
              && rc == if (Sum(bytes) + Sum(d.data)) % 256 != 0 then -2 else h.len
    {
      RecvRle(data, h.len);
      var c := SumUp(bytes, data[..h.len]);
      rc := if c != 0 then -2 else h.len;
    }

    /** The answer r to the bytes of a header, with the rest of the input still to be read. */
    ghost predicate Answers(r: Received, h: Header, bytes: seq<Byte>, limit: nat)
      reads this
    {
      if h.len > limit then r == TooLong(input)
      else
        var d := Decode(input, h.len, RLE_ESCAPE);
        d.Some? && r == if (Sum(bytes) + Sum(d.value.data)) % 256 != 0 then BadSum(d.value.rest) else Good(h, d.value.data, d.value.rest)
    }

    /** Receives what follows a header. */
    method RecvRest(h: Header, bytes: seq<Byte>, data: array<Byte>, ghost r: Received) returns (rc: int)
      requires Answers(r, h, bytes, data.Length)
      modifies `input, data
      ensures !r.Waiting? && input == r.rest
      ensures r.TooLong? ==> rc == -1
      ensures r.BadSum? ==> rc == -2
      ensures r.Good? ==> h == r.header && rc == |r.data| <= data.Length && data[..rc] == r.data
    {
      if h.len > data.Length {
        rc := -1;
      } else {
        rc := RecvBody(h, bytes, data);
      }
    }

    /** Receives a packet: the length of its data, or an error. */
    method RecvPacket(data: array<Byte>) returns (rc: int, h: Header)
      requires !Receive(input, data.Length).Waiting?
      modifies `input, data
      ensures var r := old(Receive(input, data.Length));
              && input == r.rest
              && (r.TooLong? ==> rc == -1)
              && (r.BadSum? ==> rc == -2)
              && (r.Good? ==> rc == |r.data| && h == r.header && data[..rc] == r.data)
    {
      ghost var r := Receive(input, data.Length);
      var bytes;
      h, bytes := RecvHeader();
      rc := RecvRest(h, bytes, data, r);
    }
  }
}
