/**
 The remote debugging protocol on values: run-length coding, checksums and framing.
 */
module DebugProtocol {
  import opened MachineWords
  import opened Options

  const SIGNATURE: Byte := 0xDB
  const RLE_ESCAPE: Byte := 0xA5

  // ---------- run-length coding ----------

  /** Whether a run is sent in place of the next bytes. */
  predicate Escaped(data: seq<Byte>, esc: Byte)
    requires data != []
  {
    data[0] == esc || (|data| > 3 && data[0] == data[1] && data[0] == data[2])
  }

  /** The number of equal bytes the data starts with, from n on, at most 256. */
  function Run(data: seq<Byte>, n: nat): (k: nat)
    requires data != [] && n <= |data| && n <= 256 && forall i :: 0 <= i < n ==> data[i] == data[0]
    ensures n <= k <= |data| && k <= 256 && (forall i :: 0 <= i < k ==> data[i] == data[0])
    decreases 256 - n
  {
    if n < |data| && n < 256 && data[n] == data[0] then Run(data, n + 1) else n
  }

  /** The length of the first run. */
  function First(data: seq<Byte>): (n: nat)
    requires data != []
    ensures 1 <= n <= |data| && n <= 256 && forall i :: 0 <= i < n ==> data[i] == data[0]
  {
    Run(data, 1)
  }

  function Encode(data: seq<Byte>, esc: Byte): seq<Byte>
    decreases |data|
  {
    if data == [] then
      []
    else if Escaped(data, esc) then
      var n := First(data);
      [esc, data[0], n % 256] + Encode(data[n..], esc)
    else
      [data[0]] + Encode(data[1..], esc)
  }

  function Repeat(b: Byte, n: nat): (s: seq<Byte>)
    ensures |s| == n && forall i :: 0 <= i < n ==> s[i] == b
  {
    seq(n, _ => b)
  }

  datatype Decoded = Decoded(data: seq<Byte>, rest: seq<Byte>)

  /** Reads len bytes of data. There is no answer when the input ends before, or a run goes
      on beyond the data. */
  function Decode(s: seq<Byte>, len: nat, esc: Byte): (r: Option<Decoded>)
    ensures r.Some? ==> |r.value.data| == len
    decreases len
  {
    if len == 0 then
      Some(Decoded([], s))
    else if s == [] then
      None
    else if s[0] != esc then
      Prefixed([s[0]], Decode(s[1..], len - 1, esc))
    else if |s| < 3 then
      None
    else
      var n := if s[2] == 0 then 256 else s[2];
      if n > len then None else Prefixed(Repeat(s[1], n), Decode(s[3..], len - n, esc))
  }

  function Prefixed(b: seq<Byte>, r: Option<Decoded>): Option<Decoded> {
    match r
    case None => None
    case Some(d) => Some(d.(data := b + d.data))
  }

  lemma {:induction false} DecodeRun(b: Byte, n: nat, tail: seq<Byte>, len: nat, esc: Byte)
    requires 1 <= n <= 256 && n <= len
    ensures Decode([esc, b, n % 256] + tail, len, esc) == Prefixed(Repeat(b, n), Decode(tail, len - n, esc))
  {
    assert ([esc, b, n % 256] + tail)[3..] == tail;
  }

  lemma {:induction false} DecodeOne(b: Byte, tail: seq<Byte>, len: nat, esc: Byte)
    requires b != esc && len > 0
    ensures Decode([b] + tail, len, esc) == Prefixed([b], Decode(tail, len - 1, esc))
  {
    assert ([b] + tail)[1..] == tail;
  }

  lemma {:induction false} DecodeAfterRun(data: seq<Byte>, n: nat, tail: seq<Byte>, esc: Byte, rest: seq<Byte>)
    requires data != [] && 1 <= n <= 256 && n <= |data| && forall i :: 0 <= i < n ==> data[i] == data[0]
    requires Decode(tail, |data| - n, esc) == Some(Decoded(data[n..], rest))
    ensures Decode([esc, data[0], n % 256] + tail, |data|, esc) == Some(Decoded(data, rest))
  {
    DecodeRun(data[0], n, tail, |data|, esc);
    assert Repeat(data[0], n) + data[n..] == data;
  }

  lemma {:induction false} DecodeAfterOne(data: seq<Byte>, tail: seq<Byte>, esc: Byte, rest: seq<Byte>)
    requires data != [] && data[0] != esc
    requires Decode(tail, |data| - 1, esc) == Some(Decoded(data[1..], rest))
    ensures Decode([data[0]] + tail, |data|, esc) == Some(Decoded(data, rest))
  {
    DecodeOne(data[0], tail, |data|, esc);
    assert [data[0]] + data[1..] == data;
  }

  lemma {:induction false} EncodeParts(data: seq<Byte>, esc: Byte, rest: seq<Byte>)
    requires data != []
    ensures Encode(data, esc) + rest ==
      if Escaped(data, esc) then [esc, data[0], First(data) % 256] + (Encode(data[First(data)..], esc) + rest)
      else [data[0]] + (Encode(data[1..], esc) + rest)
  {
  }

  /** Decoding what was encoded gives the data back and stops right behind it. */
  lemma {:induction false} DecodeEncode(data: seq<Byte>, esc: Byte, rest: seq<Byte>)
    ensures Decode(Encode(data, esc) + rest, |data|, esc) == Some(Decoded(data, rest))
    decreases |data|
  {
    if data == [] {
      assert Encode(data, esc) + rest == rest;
    } else {
      EncodeParts(data, esc, rest);
      var n := if Escaped(data, esc) then First(data) else 1;
      DecodeEncode(data[n..], esc, rest);
      if Escaped(data, esc) {
        DecodeAfterRun(data, n, Encode(data[n..], esc) + rest, esc, rest);
      } else {
        DecodeAfterOne(data, Encode(data[n..], esc) + rest, esc, rest);
      }
    }
  }

  // ---------- packets ----------

  datatype Header = Header(cmd: Byte, id: Byte, checksum: Byte, len: nat)

  /** A number of four bytes, the lowest one first. */
  function Little(n: nat): (s: seq<Byte>)
    ensures |s| == 4
  {
    [n % 256, n / 256 % 256, n / 256 / 256 % 256, n / 256 / 256 / 256 % 256]
  }

  function Number(s: seq<Byte>): nat
    requires |s| == 4
  {
    s[0] as int + 256 * (s[1] as int + 256 * (s[2] as int + 256 * s[3] as int))
  }

  lemma {:induction false} LittleNumber(n: nat)
    requires n < 0x1_0000_0000
    ensures Number(Little(n)) == n
  {
    var a := n / 256;
    var b := a / 256;
    assert b / 256 < 256;
    assert a == 256 * b + a % 256 && b == 256 * (b / 256) + b % 256;
  }

  function Sum(s: seq<Byte>): nat {
    if s == [] then 0 else Sum(s[..|s| - 1]) + s[|s| - 1] as int
  }

  lemma {:induction false} SumJoin(a: seq<Byte>, b: seq<Byte>)
    ensures Sum(a + b) == Sum(a) + Sum(b)
    decreases |b|
  {
    if b == [] {
      assert a + b == a;
    } else {
      SumJoin(a, b[..|b| - 1]);
      assert (a + b)[..|a + b| - 1] == a + b[..|b| - 1];
    }
  }

  function HeaderBytes(h: Header): (s: seq<Byte>)
    ensures |s| == 8
  {
    [SIGNATURE, h.cmd, h.id, h.checksum] + Little(h.len)
  }

  /** The byte that makes the sum of the packet zero. */
  function Balance(sum: int): Byte {
    (0 - sum) % 256
  }

  /** The header a packet is sent with. */
  function HeaderOf(cmd: Byte, id: Byte, data: seq<Byte>): Header {
    Header(cmd, id, Balance(Sum(HeaderBytes(Header(cmd, id, 0, |data|))) + Sum(data)), |data|)
  }

  /** The bytes of a packet on the line. */
  function Packet(cmd: Byte, id: Byte, data: seq<Byte>): seq<Byte> {
    HeaderBytes(HeaderOf(cmd, id, data)) + Encode(data, RLE_ESCAPE)
  }

  lemma {:induction false} HeaderSum(cmd: Byte, id: Byte, sum: Byte, len: nat)
    ensures Sum(HeaderBytes(Header(cmd, id, sum, len))) == Sum(HeaderBytes(Header(cmd, id, 0, len))) + sum as int
  {
    var a, b := [SIGNATURE, cmd, id], Little(len);
    assert HeaderBytes(Header(cmd, id, sum, len)) == a + ([sum] + b);
    assert HeaderBytes(Header(cmd, id, 0, len)) == a + ([0] + b);
    SumJoin(a, [sum] + b);
    SumJoin(a, [0] + b);
    SumJoin([sum], b);
    SumJoin([0], b);
    assert [sum][..0] == [] && [0][..0] == [];
  }

  /** A packet as it is sent sums up to zero. */
  lemma {:induction false} Balanced(cmd: Byte, id: Byte, data: seq<Byte>)
    ensures (Sum(HeaderBytes(HeaderOf(cmd, id, data))) + Sum(data)) % 256 == 0
  {
    var sum := Sum(HeaderBytes(Header(cmd, id, 0, |data|))) + Sum(data);
    HeaderSum(cmd, id, Balance(sum), |data|);
  }

  /** What a receiver makes of the input: nothing until more of it arrives, an error when the
      length is beyond the limit or the sum is not zero, or a packet. */
  datatype Received = Waiting | TooLong(rest: seq<Byte>) | BadSum(rest: seq<Byte>) | Good(header: Header, data: seq<Byte>, rest: seq<Byte>)

  /** The input from the next signature on. */
  function Skip(s: seq<Byte>): (r: seq<Byte>)
    ensures |r| <= |s|
  {
    if s == [] || s[0] == SIGNATURE then s else Skip(s[1..])
  }

  function Receive(s: seq<Byte>, limit: nat): Received {
    var t := Skip(s);
    if |t| < 8 then
      Waiting
    else
      var h := Header(t[1], t[2], t[3], Number(t[4..8]));
      if h.len > limit then
        TooLong(t[8..])
      else
        match Decode(t[8..], h.len, RLE_ESCAPE)
        case None => Waiting
        case Some(d) => if (Sum(t[..8]) + Sum(d.data)) % 256 != 0 then BadSum(d.rest) else Good(h, d.data, d.rest)
  }

  ghost predicate Noise(s: seq<Byte>) {
    forall i :: 0 <= i < |s| ==> s[i] != SIGNATURE
  }

  lemma {:induction false} SkipNoise(noise: seq<Byte>, s: seq<Byte>)
    requires Noise(noise) && s != [] && s[0] == SIGNATURE
    ensures Skip(noise + s) == s
    decreases |noise|
  {
    if noise == [] {
      assert noise + s == s;
    } else {
      assert (noise + s)[1..] == noise[1..] + s;
      SkipNoise(noise[1..], s);
    }
  }

  /** The input from a signature on. */
  lemma {:induction false} ReceiveAt(t: seq<Byte>, h: Header, encoded: seq<Byte>, d: Decoded, limit: nat)
    requires t == HeaderBytes(h) + encoded && h.len < 0x1_0000_0000 && h.len <= limit
    requires Decode(encoded, h.len, RLE_ESCAPE) == Some(d) && (Sum(HeaderBytes(h)) + Sum(d.data)) % 256 == 0
    ensures Skip(t) == t && Receive(t, limit) == Good(h, d.data, d.rest)
  {
    assert t[..8] == HeaderBytes(h) && t[8..] == encoded;
    assert t[4..8] == Little(h.len);
    LittleNumber(h.len);
  }

  lemma {:induction false} ReceiveSkip(noise: seq<Byte>, t: seq<Byte>, limit: nat)
    requires Noise(noise) && t != [] && t[0] == SIGNATURE
    ensures Receive(noise + t, limit) == Receive(t, limit)
  {
    SkipNoise(noise, t);
  }

  lemma {:induction false} PacketParts(cmd: Byte, id: Byte, data: seq<Byte>, rest: seq<Byte>)
    ensures var t := Packet(cmd, id, data) + rest;
            t == HeaderBytes(HeaderOf(cmd, id, data)) + (Encode(data, RLE_ESCAPE) + rest) && t[0] == SIGNATURE
  {
  }

  lemma {:induction false} ReceiveClean(cmd: Byte, id: Byte, data: seq<Byte>, rest: seq<Byte>, limit: nat)
    requires |data| <= limit && |data| < 0x1_0000_0000
    ensures Receive(Packet(cmd, id, data) + rest, limit) == Good(HeaderOf(cmd, id, data), data, rest)
  {
    var t, encoded := Packet(cmd, id, data) + rest, Encode(data, RLE_ESCAPE) + rest;
    assert t == HeaderBytes(HeaderOf(cmd, id, data)) + encoded by {
      PacketParts(cmd, id, data, rest);
    }
    assert Decode(encoded, |data|, RLE_ESCAPE) == Some(Decoded(data, rest)) by {
      DecodeEncode(data, RLE_ESCAPE, rest);
    }
    Balanced(cmd, id, data);
    ReceiveAt(t, HeaderOf(cmd, id, data), encoded, Decoded(data, rest), limit);
  }

  /** A packet after noise is received as it was sent, and the rest of the input remains. */
  lemma {:induction false} ReceivePacket(noise: seq<Byte>, cmd: Byte, id: Byte, data: seq<Byte>, rest: seq<Byte>, limit: nat)
    requires Noise(noise) && |data| <= limit && |data| < 0x1_0000_0000
    ensures Receive(noise + (Packet(cmd, id, data) + rest), limit) == Good(HeaderOf(cmd, id, data), data, rest)
  {
    PacketParts(cmd, id, data, rest);
    ReceiveSkip(noise, Packet(cmd, id, data) + rest, limit);
    ReceiveClean(cmd, id, data, rest, limit);
  }

  // ---------- sequences of packets ----------

  datatype Message = Message(noise: seq<Byte>, cmd: Byte, id: Byte, data: seq<Byte>)

  /** What a sender puts on the line, with noise before each packet. */
  function Line(ms: seq<Message>): seq<Byte> {
    if ms == [] then [] else ms[0].noise + (Packet(ms[0].cmd, ms[0].id, ms[0].data) + Line(ms[1..]))
  }

  ghost predicate Sendable(ms: seq<Message>, limit: nat) {
    forall i :: 0 <= i < |ms| ==> Noise(ms[i].noise) && |ms[i].data| <= limit && |ms[i].data| < 0x1_0000_0000
  }

  /** The packets a receiver takes off the line one after the other, with what is left. */
  ghost predicate Receives(s: seq<Byte>, limit: nat, ms: seq<Message>, rest: seq<Byte>)
    decreases |ms|
  {
    if ms == [] then
      s == rest
    else
      var r := Receive(s, limit);
      && r.Good? && r.header.cmd == ms[0].cmd && r.header.id == ms[0].id && r.header.len == |ms[0].data| && r.data == ms[0].data
      && Receives(r.rest, limit, ms[1..], rest)
  }

  /** All packets are received, in the order in which they were sent. */
  lemma {:induction false} ReceiveAll(ms: seq<Message>, limit: nat)
    requires Sendable(ms, limit)
    ensures Receives(Line(ms), limit, ms, [])
    decreases |ms|
  {
    if ms != [] {
      ReceivePacket(ms[0].noise, ms[0].cmd, ms[0].id, ms[0].data, Line(ms[1..]), limit);
      ReceiveAll(ms[1..], limit);
    }
  }
}
