/** What the checksum notices, and what the run-length code looks like. */
module DebugLaws {
  import opened Arithmetic
  import opened MachineWords
  import opened Options
  import opened DebugProtocol

  // ---------- soundness ----------

  /** Four bytes are the number they stand for, the lowest one first. */
  lemma {:induction false} NumberLittle(s: seq<Byte>)
    requires |s| == 4
    ensures Little(Number(s)) == s && Number(s) < 0x1_0000_0000
  {
    var c: int := s[3];
    var b: int := s[2] as int + 256 * c;
    var a: int := s[1] as int + 256 * b;
    ModUnique(Number(s), 256, a, s[0]);
    ModUnique(a, 256, b, s[1]);
    ModUnique(b, 256, c, s[2]);
  }

  lemma {:induction false} SkipParts(s: seq<Byte>) returns (noise: seq<Byte>)
    ensures Noise(noise) && s == noise + Skip(s) && (Skip(s) != [] ==> Skip(s)[0] == SIGNATURE)
  {
    if s == [] || s[0] == SIGNATURE {
      noise := [];
    } else {
      var rest := SkipParts(s[1..]);
      noise := [s[0]] + rest;
    }
  }

  lemma {:induction false} Prepend(s: seq<Byte>, k: nat, more: seq<Byte>, rest: seq<Byte>)
    requires k <= |s| && s[k..] == more + rest
    ensures s == (s[..k] + more) + rest
  {
    assert s == s[..k] + s[k..];
  }

  lemma {:induction false} DecodeParts(s: seq<Byte>, len: nat, esc: Byte) returns (encoded: seq<Byte>)
    requires Decode(s, len, esc).Some?
    ensures s == encoded + Decode(s, len, esc).value.rest
    decreases len
  {
    if len == 0 {
      encoded := [];
    } else if s[0] != esc {
      var more := DecodeParts(s[1..], len - 1, esc);
      encoded := s[..1] + more;
      Prepend(s, 1, more, Decode(s, len, esc).value.rest);
    } else {
      var n := if s[2] == 0 then 256 else s[2];
      var more := DecodeParts(s[3..], len - n, esc);
      encoded := s[..3] + more;
      Prepend(s, 3, more, Decode(s, len, esc).value.rest);
    }
  }

  /** The bytes of a header at a signature. */
  lemma {:induction false} HeaderAt(t: seq<Byte>)
    requires |t| >= 8 && t[0] == SIGNATURE
    ensures t[..8] == HeaderBytes(Header(t[1], t[2], t[3], Number(t[4..8])))
  {
    NumberLittle(t[4..8]);
    assert t[..8] == [t[0], t[1], t[2], t[3]] + t[4..8];
  }

  lemma {:induction false} GoodParts(s: seq<Byte>, limit: nat)
    requires Receive(s, limit).Good?
    ensures var t, r := Skip(s), Receive(s, limit);
            && |t| >= 8 && r.header == Header(t[1], t[2], t[3], Number(t[4..8])) && r.header.len <= limit
            && Decode(t[8..], r.header.len, RLE_ESCAPE) == Some(Decoded(r.data, r.rest))
            && (Sum(t[..8]) + Sum(r.data)) % 256 == 0
  {
  }

  lemma {:induction false} OnLine(s: seq<Byte>, noise: seq<Byte>, t: seq<Byte>, bytes: seq<Byte>, encoded: seq<Byte>, rest: seq<Byte>)
    requires s == noise + t && |t| >= 8 && t[..8] == bytes && t[8..] == encoded + rest
    ensures s == noise + bytes + encoded + rest
  {
    assert t == t[..8] + t[8..];
  }

  /** A packet taken as good was on the line after noise: its header, then its data in code,
      then the rest. It is within the limit and sums up to zero. */
  lemma {:induction false} GoodIsSound(s: seq<Byte>, limit: nat) returns (noise: seq<Byte>, encoded: seq<Byte>)
    requires Receive(s, limit).Good?
    ensures var r := Receive(s, limit);
            && Noise(noise) && s == noise + HeaderBytes(r.header) + encoded + r.rest
            && Decode(encoded + r.rest, r.header.len, RLE_ESCAPE) == Some(Decoded(r.data, r.rest))
            && |r.data| == r.header.len <= limit && (Sum(HeaderBytes(r.header)) + Sum(r.data)) % 256 == 0
  {
    var t, r := Skip(s), Receive(s, limit);
    GoodParts(s, limit);
    noise := SkipParts(s);
    HeaderAt(t);
    encoded := DecodeParts(t[8..], r.header.len, RLE_ESCAPE);
    OnLine(s, noise, t, HeaderBytes(r.header), encoded, r.rest);
  }

  // ---------- one byte changed ----------

  lemma {:induction false} SumChanged(s: seq<Byte>, i: nat, b: Byte)
    requires i < |s|
    ensures Sum(s[i := b]) == Sum(s) - s[i] as int + b as int
  {
    var x, y, z := s[..i], s[i..i + 1], s[i + 1..];
    assert s == x + (y + z) && s[i := b] == x + ([b] + z) && y == [s[i]];
    SumJoin(x, y + z);
    SumJoin(y, z);
    SumJoin(x, [b] + z);
    SumJoin([b], z);
    assert [b][..0] == [] && y[..0] == [];
  }

  lemma {:induction false} Unbalanced(sum: int, x: Byte, y: Byte)
    requires sum % 256 == 0 && x != y
    ensures (sum - x as int + y as int) % 256 != 0
  {
    var q, d := sum / 256, y as int - x as int;
    if d > 0 {
      ModUnique(sum + d, 256, q, d);
    } else {
      ModUnique(sum + d, 256, q - 1, d + 256);
    }
  }

  /** A header with a sum that is not zero together with its data. */
  lemma {:induction false} ReceiveBad(bytes: seq<Byte>, len: nat, encoded: seq<Byte>, d: Decoded, limit: nat)
    requires |bytes| == 8 && bytes[0] == SIGNATURE && bytes[4..8] == Little(len) && len < 0x1_0000_0000 && len <= limit
    requires Decode(encoded, len, RLE_ESCAPE) == Some(d) && (Sum(bytes) + Sum(d.data)) % 256 != 0
    ensures Receive(bytes + encoded, limit) == BadSum(d.rest)
  {
    var t := bytes + encoded;
    assert t[..8] == bytes && t[8..] == encoded;
    assert t[4..8] == Little(len);
    LittleNumber(len);
  }

  lemma {:induction false} BadAfterNoise(noise: seq<Byte>, bytes: seq<Byte>, len: nat, encoded: seq<Byte>, d: Decoded, limit: nat)
    requires Noise(noise) && |bytes| == 8 && bytes[0] == SIGNATURE && bytes[4..8] == Little(len) && len < 0x1_0000_0000 && len <= limit
    requires Decode(encoded, len, RLE_ESCAPE) == Some(d) && (Sum(bytes) + Sum(d.data)) % 256 != 0
    ensures Receive(noise + (bytes + encoded), limit) == BadSum(d.rest)
  {
    ReceiveBad(bytes, len, encoded, d, limit);
    ReceiveSkip(noise, bytes + encoded, limit);
  }

  lemma {:induction false} LengthAt(h: Header)
    ensures HeaderBytes(h)[4..8] == Little(h.len) && HeaderBytes(h)[0] == SIGNATURE
  {
  }

  lemma {:induction false} ChangedUnbalanced(good: seq<Byte>, sum: nat, i: nat, b: Byte)
    requires i < |good| && (Sum(good) + sum) % 256 == 0 && b != good[i]
    ensures (Sum(good[i := b]) + sum) % 256 != 0
  {
    SumChanged(good, i, b);
    Unbalanced(Sum(good) + sum, good[i], b);
  }

  lemma {:induction false} BytesNoticed(noise: seq<Byte>, good: seq<Byte>, len: nat, encoded: seq<Byte>, d: Decoded, i: nat, b: Byte, limit: nat)
    requires Noise(noise) && len <= limit && len < 0x1_0000_0000 && Decode(encoded, len, RLE_ESCAPE) == Some(d)
    requires |good| == 8 && good[0] == SIGNATURE && good[4..8] == Little(len) && (Sum(good) + Sum(d.data)) % 256 == 0
    requires 1 <= i <= 3 && b != good[i]
    ensures Receive(noise + (good[i := b] + encoded), limit) == BadSum(d.rest)
  {
    var bytes := good[i := b];
    assert bytes[4..8] == good[4..8];
    ChangedUnbalanced(good, Sum(d.data), i, b);
    BadAfterNoise(noise, bytes, len, encoded, d, limit);
  }

  /** The input starts with a code for the data, and the rest follows. */
  ghost predicate Codes(input: seq<Byte>, data: seq<Byte>, rest: seq<Byte>) {
    Decode(input, |data|, RLE_ESCAPE) == Some(Decoded(data, rest))
  }

  lemma {:induction false} EncodeCodes(data: seq<Byte>, rest: seq<Byte>)
    ensures Codes(Encode(data, RLE_ESCAPE) + rest, data, rest)
  {
    DecodeEncode(data, RLE_ESCAPE, rest);
  }

  /** The header a packet is sent with. */
  ghost predicate SentAs(good: seq<Byte>, cmd: Byte, id: Byte, data: seq<Byte>) {
    good == HeaderBytes(HeaderOf(cmd, id, data))
  }

  lemma {:induction false} SentParts(good: seq<Byte>, cmd: Byte, id: Byte, data: seq<Byte>)
    requires SentAs(good, cmd, id, data)
    ensures |good| == 8 && good[0] == SIGNATURE && good[4..8] == Little(|data|) && (Sum(good) + Sum(data)) % 256 == 0
  {
    LengthAt(HeaderOf(cmd, id, data));
    Balanced(cmd, id, data);
  }

  /** A packet with another command, identifier or checksum in its header is refused. */
  lemma {:induction false} HeaderNoticed(noise: seq<Byte>, cmd: Byte, id: Byte, data: seq<Byte>, good: seq<Byte>, encoded: seq<Byte>,
                                         rest: seq<Byte>, i: nat, b: Byte, limit: nat)
    requires Noise(noise) && |data| <= limit && |data| < 0x1_0000_0000
    requires SentAs(good, cmd, id, data) && |good| == 8 && Codes(encoded, data, rest)
    requires 1 <= i <= 3 && b != good[i]
    ensures Receive(noise + (good[i := b] + encoded), limit) == BadSum(rest)
  {
    SentParts(good, cmd, id, data);
    BytesNoticed(noise, good, |data|, encoded, Decoded(data, rest), i, b, limit);
  }

  /** A packet with one other byte in its data is refused. */
  lemma {:induction false} DataNoticed(noise: seq<Byte>, cmd: Byte, id: Byte, data: seq<Byte>, good: seq<Byte>, encoded: seq<Byte>,
                                       rest: seq<Byte>, i: nat, b: Byte, limit: nat)
    requires Noise(noise) && |data| <= limit && |data| < 0x1_0000_0000 && i < |data| && b != data[i]
    requires SentAs(good, cmd, id, data) && Codes(encoded, data[i := b], rest)
    ensures Receive(noise + (good + encoded), limit) == BadSum(rest)
  {
    SentParts(good, cmd, id, data);
    ChangedUnbalanced(data, Sum(good), i, b);
    BadAfterNoise(noise, good, |data|, encoded, Decoded(data[i := b], rest), limit);
  }

  // ---------- the code ----------

  /** Data without escape bytes and without three equal bytes in a row goes out as it is. */
  lemma {:induction false} QuietUnchanged(data: seq<Byte>, esc: Byte)
    requires forall i :: 0 <= i < |data| ==> data[i] != esc
    requires forall i :: 0 <= i && i + 2 < |data| ==> !(data[i] == data[i + 1] && data[i] == data[i + 2])
    ensures Encode(data, esc) == data
    decreases |data|
  {
    if data != [] {
      var rest := data[1..];
      forall i | 0 <= i && i + 2 < |rest| ensures !(rest[i] == rest[i + 1] && rest[i] == rest[i + 2]) {
        assert rest[i] == data[i + 1] && rest[i + 1] == data[i + 1 + 1] && rest[i + 2] == data[i + 1 + 2];
      }
      assert |data| > 3 ==> !(data[0] == data[0 + 1] && data[0] == data[0 + 2]);
      QuietUnchanged(rest, esc);
      assert [data[0]] + rest == data;
    }
  }

  /** Code is never more than three times as long as the data. */
  lemma {:induction false} EncodeBound(data: seq<Byte>, esc: Byte)
    ensures |Encode(data, esc)| <= 3 * |data|
    decreases |data|
  {
    if data != [] {
      EncodeBound(data[if Escaped(data, esc) then First(data) else 1..], esc);
    }
  }

  lemma {:induction false} RunWhole(b: Byte, n: nat, k: nat)
    requires 1 <= k <= n && k <= 256
    ensures Run(Repeat(b, n), k) == if n < 256 then n else 256
    decreases 256 - k
  {
    if k < n && k < 256 {
      RunWhole(b, n, k + 1);
    }
  }

  /** Equal bytes go out as runs of 256 bytes, three bytes each, as long as there are that
      many. */
  lemma {:induction false} EncodeRuns(b: Byte, n: nat, esc: Byte)
    requires n > 3
    ensures n <= 256 ==> Encode(Repeat(b, n), esc) == [esc, b, n % 256]
    ensures n > 256 ==> Encode(Repeat(b, n), esc) == [esc, b, 0] + Encode(Repeat(b, n - 256), esc)
  {
    var data := Repeat(b, n);
    RunWhole(b, n, 1);
    if n <= 256 {
      assert data[n..] == [];
    } else {
      assert data[256..] == Repeat(b, n - 256);
    }
  }
}
