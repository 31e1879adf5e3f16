/**
 The block cipher on values, for any tables, any key schedule and any bit selection, and
 the proof that deciphering undoes enciphering.
 */
module CipherSpec {
  import opened Arithmetic

  type Bit = x: int | 0 <= x <= 1

  function Xor(a: Bit, b: Bit): Bit {
    if a == b then 0 else 1
  }

  /** Tables of positions, counted from 0. */
  datatype Tables = Tables(ip: seq<nat>, fp: seq<nat>, p: seq<nat>, s: seq<seq<int>>, e: seq<nat>,
                           pc1c: seq<nat>, pc1d: seq<nat>, pc2c: seq<nat>, pc2d: seq<nat>, shifts: seq<nat>)

  predicate Positions(t: seq<nat>, size: nat, bound: nat) {
    |t| == size && forall j :: 0 <= j < size ==> t[j] < bound
  }

  /** q takes back what p does. */
  predicate Inverse(p: seq<nat>, q: seq<nat>)
    requires Positions(p, 64, 64) && Positions(q, 64, 64)
  {
    forall j :: 0 <= j < 64 ==> p[q[j]] == j
  }

  predicate Good(t: Tables) {
    && Positions(t.ip, 64, 64) && Positions(t.fp, 64, 64) && Inverse(t.ip, t.fp) && Inverse(t.fp, t.ip)
    && Positions(t.p, 32, 32) && Positions(t.e, 48, 32)
    && |t.s| == 8 && (forall j :: 0 <= j < 8 ==> |t.s[j]| == 64)
    && Positions(t.pc1c, 28, 64) && Positions(t.pc1d, 28, 64)
    && Positions(t.pc2c, 24, 28) && Positions(t.pc2d, 24, 28)
    && |t.shifts| == 16 && Turn(t.shifts, 16) == 28
  }

  /** How far the key registers have been rotated after n rounds. */
  function Turn(shifts: seq<nat>, n: nat): nat
    requires n <= |shifts|
  {
    if n == 0 then 0 else Turn(shifts, n - 1) + shifts[n - 1]
  }

  function Select(s: seq<Bit>, t: seq<nat>): (r: seq<Bit>)
    requires forall j :: 0 <= j < |t| ==> t[j] < |s|
    ensures |r| == |t| && forall j :: 0 <= j < |t| ==> r[j] == s[t[j]]
  {
    seq(|t|, j requires 0 <= j < |t| => s[t[j]])
  }

  lemma {:induction false} SelectInverse(s: seq<Bit>, p: seq<nat>, q: seq<nat>)
    requires |s| == 64 && Positions(p, 64, 64) && Positions(q, 64, 64) && Inverse(p, q)
    ensures Select(Select(s, p), q) == s
  {
  }

  // ---------- a round ----------

  /** The half block, expanded and combined with the key of the round. */
  function Mixed(r: seq<Bit>, k: seq<Bit>, e: seq<nat>): (m: seq<Bit>)
    requires |r| == 32 && |k| == 48 && Positions(e, 48, 32)
    ensures |m| == 48 && forall j :: 0 <= j < 48 ==> m[j] == Xor(r[e[j]], k[j])
  {
    seq(48, j requires 0 <= j < 48 => Xor(r[e[j]], k[j]))
  }

  /** The number written by bits, the highest one first. */
  function Number(s: seq<Bit>): nat {
    if s == [] then 0 else 2 * Number(s[..|s| - 1]) + s[|s| - 1]
  }

  lemma {:induction false} NumberOfTwo(a: Bit, b: Bit)
    ensures Number([a, b]) == 2 * (a as int) + b as int
  {
    assert [a, b][..1] == [a] && [a][..0] == [];
    assert Number([a]) == 2 * Number([]) + a;
  }

  lemma {:induction false} NumberOfFour(s: seq<Bit>)
    requires |s| == 4
    ensures Number(s) == 8 * (s[0] as int) + 4 * (s[1] as int) + 2 * (s[2] as int) + s[3] as int
  {
    var s3, s2, s1 := s[..3], s[..2], s[..1];
    assert s3[..2] == s2 && s2[..1] == s1 && s1[..0] == [];
    assert Number(s3) == 2 * Number(s2) + s3[2];
    assert Number(s2) == 2 * Number(s1) + s2[1];
    assert Number(s1) == 2 * Number([]) + s1[0];
  }

  /** The place in selection function j. */
  function Place(m: seq<Bit>, j: nat): (k: nat)
    requires |m| == 48 && j < 8
    ensures k < 64
  {
    var t := 6 * j;
    var a: int, b: int, c: int, d: int, x: int, y: int := m[t], m[t + 1], m[t + 2], m[t + 3], m[t + 4], m[t + 5];
    32 * a + 8 * b + 4 * c + 2 * d + x + 16 * y
  }

  /** Bit n of the eight selected four-bit numbers. */
  function Chosen(s: seq<seq<int>>, m: seq<Bit>, n: nat): Bit
    requires |m| == 48 && n < 32 && |s| == 8 && forall j :: 0 <= j < 8 ==> |s[j]| == 64
  {
    Digit(s[n / 4][Place(m, n / 4)], n % 4)
  }

  /** The bit of a four-bit number, the highest one first. */
  function Digit(k: int, i: nat): Bit {
    if i == 0 then k / 8 % 2 else if i == 1 then k / 4 % 2 else if i == 2 then k / 2 % 2 else k % 2
  }

  /** The four bits write the selected number. */
  lemma {:induction false} DigitsWrite(k: int)
    requires 0 <= k < 16
    ensures Number([Digit(k, 0), Digit(k, 1), Digit(k, 2), Digit(k, 3)]) == k
  {
    NumberOfFour([Digit(k, 0), Digit(k, 1), Digit(k, 2), Digit(k, 3)]);
  }

  function F(t: Tables, r: seq<Bit>, k: seq<Bit>, e: seq<nat>): (f: seq<Bit>)
    requires Good(t) && |r| == 32 && |k| == 48 && Positions(e, 48, 32)
    ensures |f| == 32
  {
    seq(32, j requires 0 <= j < 32 => Chosen(t.s, Mixed(r, k, e), t.p[j]))
  }

  function XorAll(a: seq<Bit>, b: seq<Bit>): (r: seq<Bit>)
    requires |a| == |b|
    ensures |r| == |a| && forall j :: 0 <= j < |a| ==> r[j] == Xor(a[j], b[j])
  {
    seq(|a|, j requires 0 <= j < |a| => Xor(a[j], b[j]))
  }

  lemma {:induction false} XorTwice(a: seq<Bit>, b: seq<Bit>)
    requires |a| == |b|
    ensures XorAll(XorAll(a, b), b) == a
  {
  }

  function Round(t: Tables, lr: seq<Bit>, k: seq<Bit>, e: seq<nat>): (r: seq<Bit>)
    requires Good(t) && |lr| == 64 && |k| == 48 && Positions(e, 48, 32)
    ensures |r| == 64
  {
    lr[32..] + XorAll(lr[..32], F(t, lr[32..], k, e))
  }

  function Flip(lr: seq<Bit>): (r: seq<Bit>)
    requires |lr| == 64
    ensures |r| == 64
  {
    lr[32..] + lr[..32]
  }

  /** A round of the flipped result takes the round back. */
  lemma {:induction false} RoundBack(t: Tables, lr: seq<Bit>, k: seq<Bit>, e: seq<nat>)
    requires Good(t) && |lr| == 64 && |k| == 48 && Positions(e, 48, 32)
    ensures Round(t, Flip(Round(t, lr, k, e)), k, e) == Flip(lr)
  {
    var l, r := lr[..32], lr[32..];
    var f := F(t, r, k, e);
    var x := XorAll(l, f);
    var y := Flip(Round(t, lr, k, e));
    assert Round(t, lr, k, e)[..32] == r && Round(t, lr, k, e)[32..] == x;
    assert y[..32] == x && y[32..] == r;
    XorTwice(l, f);
  }

  // ---------- all rounds ----------

  predicate Schedule(ks: seq<seq<Bit>>) {
    forall i :: 0 <= i < |ks| ==> |ks[i]| == 48
  }

  function Rounds(t: Tables, lr: seq<Bit>, ks: seq<seq<Bit>>, e: seq<nat>): (r: seq<Bit>)
    requires Good(t) && |lr| == 64 && Schedule(ks) && Positions(e, 48, 32)
    ensures |r| == 64
    decreases |ks|
  {
    if ks == [] then lr else Rounds(t, Round(t, lr, ks[0], e), ks[1..], e)
  }

  function Backwards(ks: seq<seq<Bit>>): (r: seq<seq<Bit>>)
    ensures |r| == |ks| && forall i :: 0 <= i < |ks| ==> r[i] == ks[|ks| - 1 - i]
  {
    seq(|ks|, i requires 0 <= i < |ks| => ks[|ks| - 1 - i])
  }

  lemma {:induction false} RoundsMore(t: Tables, lr: seq<Bit>, ks: seq<seq<Bit>>, k: seq<Bit>, e: seq<nat>)
    requires Good(t) && |lr| == 64 && Schedule(ks) && |k| == 48 && Positions(e, 48, 32)
    ensures Schedule(ks + [k]) && Rounds(t, lr, ks + [k], e) == Round(t, Rounds(t, lr, ks, e), k, e)
    decreases |ks|
  {
    if ks == [] {
      assert ks + [k] == [k] && [k][1..] == [];
    } else {
      RoundsMore(t, Round(t, lr, ks[0], e), ks[1..], k, e);
      assert (ks + [k])[1..] == ks[1..] + [k];
    }
  }

  /** The same rounds in the opposite order, on the flipped result, lead back. */
  lemma {:induction false} RoundsBack(t: Tables, lr: seq<Bit>, ks: seq<seq<Bit>>, e: seq<nat>)
    requires Good(t) && |lr| == 64 && Schedule(ks) && Positions(e, 48, 32)
    ensures Rounds(t, Flip(Rounds(t, lr, ks, e)), Backwards(ks), e) == Flip(lr)
    decreases |ks|
  {
    if ks != [] {
      var next := Round(t, lr, ks[0], e);
      RoundsBack(t, next, ks[1..], e);
      assert Backwards(ks) == Backwards(ks[1..]) + [ks[0]];
      RoundsMore(t, Flip(Rounds(t, next, ks[1..], e)), Backwards(ks[1..]), ks[0], e);
      RoundBack(t, lr, ks[0], e);
    }
  }

  /** A block taken through rounds in the given order. */
  function Through(t: Tables, block: seq<Bit>, order: seq<seq<Bit>>, e: seq<nat>): (r: seq<Bit>)
    requires Good(t) && |block| == 64 && Schedule(order) && Positions(e, 48, 32)
    ensures |r| == 64
  {
    Select(Flip(Rounds(t, Select(block, t.ip), order, e)), t.fp)
  }

  /** Enciphers a block, or deciphers it when back is set. */
  function Encrypt(t: Tables, block: seq<Bit>, ks: seq<seq<Bit>>, e: seq<nat>, back: bool): (r: seq<Bit>)
    requires Good(t) && |block| == 64 && Schedule(ks) && Positions(e, 48, 32)
    ensures |r| == 64
  {
    Through(t, block, if back then Backwards(ks) else ks, e)
  }

  lemma {:induction false} FlipTwice(x: seq<Bit>)
    requires |x| == 64
    ensures Flip(Flip(x)) == x
  {
  }

  lemma {:induction false} BackwardsTwice(ks: seq<seq<Bit>>)
    ensures Backwards(Backwards(ks)) == ks
  {
  }

  /** The opposite order leads back. */
  lemma {:induction false} ThroughBack(t: Tables, block: seq<Bit>, order: seq<seq<Bit>>, e: seq<nat>)
    requires Good(t) && |block| == 64 && Schedule(order) && Positions(e, 48, 32)
    ensures Through(t, Through(t, block, order, e), Backwards(order), e) == block
  {
    var x := Select(block, t.ip);
    var y := Flip(Rounds(t, x, order, e));
    SelectInverse(y, t.fp, t.ip);
    RoundsBack(t, x, order, e);
    FlipTwice(x);
    SelectInverse(block, t.ip, t.fp);
  }

  /** Deciphering undoes enciphering, and the other way round. */
  lemma {:induction false} DecipherEncipher(t: Tables, block: seq<Bit>, ks: seq<seq<Bit>>, e: seq<nat>, back: bool)
    requires Good(t) && |block| == 64 && Schedule(ks) && Positions(e, 48, 32)
    ensures Encrypt(t, Encrypt(t, block, ks, e, back), ks, e, !back) == block
  {
    BackwardsTwice(ks);
    ThroughBack(t, block, if back then Backwards(ks) else ks, e);
  }

  // ---------- the key schedule ----------

  /** A register rotated to the left. */
  function Rotated(s: seq<Bit>, n: nat): (r: seq<Bit>)
    requires |s| == 28
    ensures |r| == 28 && forall j :: 0 <= j < 28 ==> r[j] == s[(j + n) % 28]
  {
    seq(28, j requires 0 <= j < 28 => s[(j + n) % 28])
  }

  lemma {:induction false} RotatedOnce(s: seq<Bit>, n: nat)
    requires |s| == 28
    ensures Rotated(s, n)[1..] + [Rotated(s, n)[0]] == Rotated(s, n + 1)
  {
  }

  /** A full turn changes nothing. */
  lemma {:induction false} RotatedFull(s: seq<Bit>)
    requires |s| == 28
    ensures Rotated(s, 28) == s && Rotated(s, 0) == s
  {
  }

  /** Bit j of the key of round i, as a bit of the key itself. */
  function KeyBit(t: Tables, key: seq<Bit>, i: nat, j: nat): Bit
    requires Good(t) && |key| >= 64 && i < 16 && j < 48
  {
    var n := Turn(t.shifts, i + 1);
    if j < 24 then key[t.pc1c[(t.pc2c[j] + n) % 28]] else key[t.pc1d[(t.pc2d[j - 24] + n) % 28]]
  }

  // ---------- salt ----------

  /** The value of a salt character, and whether its bit j is set. */
  function SaltValue(c: int): int {
    var x := if c > 'Z' as int then c - 6 else c;
    var y := if x > '9' as int then x - 7 else x;
    y - '.' as int
  }

  predicate SaltBit(c: int, j: nat) {
    SaltValue(c) / Pow2(j) % 2 == 1
  }

  /** The bit selection with the entries exchanged that the salt names. */
  function Salted(e: seq<nat>, salt: (int, int)): (r: seq<nat>)
    requires |e| == 48
    ensures |r| == 48
  {
    seq(48, k requires 0 <= k < 48 => e[Partner(salt, k)])
  }

  /** Whether the salt exchanges the entries k and k + 24. */
  predicate Exchanged(salt: (int, int), k: nat) {
    k < 12 && if k < 6 then SaltBit(salt.0, k) else SaltBit(salt.1, k - 6)
  }

  /** The entry that ends up at k. */
  function Partner(salt: (int, int), k: nat): (p: nat)
    requires k < 48
    ensures p < 48
  {
    if k < 24 && Exchanged(salt, k) then k + 24 else if k >= 24 && Exchanged(salt, k - 24) then k - 24 else k
  }

  /** The salt keeps every entry in range and applying it twice changes nothing. */
  lemma {:induction false} SaltedGood(e: seq<nat>, salt: (int, int))
    requires Positions(e, 48, 32)
    ensures Positions(Salted(e, salt), 48, 32) && Salted(Salted(e, salt), salt) == e
  {
    forall k | 0 <= k < 48 ensures Salted(Salted(e, salt), salt)[k] == e[k] {
      assert Partner(salt, Partner(salt, k)) == k;
    }
  }
}
