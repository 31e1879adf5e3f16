/** What a round computes, in terms of the numbers its groups of bits write. */
module CipherRound {
  import opened Arithmetic
  import opened CipherSpec

  /** The selections are four-bit numbers. */
  predicate Small(s: seq<seq<int>>) {
    forall j, k :: 0 <= j < |s| && 0 <= k < |s[j]| ==> 0 <= s[j][k] < 16
  }

  /** Sums of bits, without carry. */
  function Sum(a: Bit, b: Bit): Bit {
    (a + b) % 2
  }

  lemma {:induction false} XorExact(a: Bit, b: Bit)
    ensures Xor(a, b) == Sum(a, b) && Sum(a, Xor(a, b)) == b
  {
  }

  /** The row and the column that group j of the selecting bits writes. */
  function Row(m: seq<Bit>, j: nat): nat
    requires |m| == 48 && j < 8
  {
    Number([m[6 * j], m[6 * j + 5]])
  }

  function Column(m: seq<Bit>, j: nat): nat
    requires |m| == 48 && j < 8
  {
    Number([m[6 * j + 1], m[6 * j + 2], m[6 * j + 3], m[6 * j + 4]])
  }

  /** The outer bits choose one of four rows, the inner bits one of sixteen columns. */
  lemma {:induction false} PlaceExact(m: seq<Bit>, j: nat)
    requires |m| == 48 && j < 8
    ensures Place(m, j) == 16 * Row(m, j) + Column(m, j) && Row(m, j) < 4 && Column(m, j) < 16
  {
    NumberOfTwo(m[6 * j], m[6 * j + 5]);
    NumberOfFour([m[6 * j + 1], m[6 * j + 2], m[6 * j + 3], m[6 * j + 4]]);
  }

  lemma {:induction false} DigitsOf(a: Bit, b: Bit, c: Bit, d: Bit, k: int)
    requires 0 <= k < 16 && a == Digit(k, 0) && b == Digit(k, 1) && c == Digit(k, 2) && d == Digit(k, 3)
    ensures Number([a, b, c, d]) == k
  {
    DigitsWrite(k);
  }

  /** Bit i of selection j. */
  function ChosenAt(s: seq<seq<int>>, m: seq<Bit>, j: nat, i: nat): Bit
    requires |m| == 48 && j < 8 && i < 4 && |s| == 8 && forall n :: 0 <= n < 8 ==> |s[n]| == 64
  {
    Chosen(s, m, 4 * j + i)
  }

  /** Bits 4j to 4j + 3 of the selections write the number in that row and column. */
  lemma {:induction false} ChosenWrite(s: seq<seq<int>>, m: seq<Bit>, j: nat)
    requires |m| == 48 && j < 8 && |s| == 8 && (forall i :: 0 <= i < 8 ==> |s[i]| == 64) && Small(s)
    ensures 16 * Row(m, j) + Column(m, j) < 64
    ensures Number([ChosenAt(s, m, j, 0), ChosenAt(s, m, j, 1), ChosenAt(s, m, j, 2), ChosenAt(s, m, j, 3)])
            == s[j][16 * Row(m, j) + Column(m, j)]
  {
    var p := Place(m, j);
    assert p == 16 * Row(m, j) + Column(m, j) by { PlaceExact(m, j); }
    InGroup(s, m, j, 0);
    InGroup(s, m, j, 1);
    InGroup(s, m, j, 2);
    InGroup(s, m, j, 3);
    DigitsOf(ChosenAt(s, m, j, 0), ChosenAt(s, m, j, 1), ChosenAt(s, m, j, 2), ChosenAt(s, m, j, 3), s[j][p]);
  }

  lemma {:induction false} InGroup(s: seq<seq<int>>, m: seq<Bit>, j: nat, i: nat)
    requires |m| == 48 && j < 8 && i < 4 && |s| == 8 && (forall n :: 0 <= n < 8 ==> |s[n]| == 64)
    ensures ChosenAt(s, m, j, i) == Digit(s[j][Place(m, j)], i)
  {
    ModUnique(4 * j + i, 4, j, i);
  }

  /** The selecting bits of a round: the right half, selected by e and added to the key. */
  function Selecting(lr: seq<Bit>, k: seq<Bit>, e: seq<nat>): (m: seq<Bit>)
    requires |lr| == 64 && |k| == 48 && Positions(e, 48, 32)
    ensures |m| == 48
  {
    seq(48, x requires 0 <= x < 48 => Sum(lr[32 + e[x]], k[x]))
  }

  lemma {:induction false} SelectingExact(lr: seq<Bit>, k: seq<Bit>, e: seq<nat>)
    requires |lr| == 64 && |k| == 48 && Positions(e, 48, 32)
    ensures Selecting(lr, k, e) == Mixed(lr[32..], k, e)
  {
    forall x | 0 <= x < 48 ensures Selecting(lr, k, e)[x] == Mixed(lr[32..], k, e)[x] {
      XorExact(lr[32 + e[x]], k[x]);
    }
  }

  /** The places that the permutation fills from selection j. */
  predicate Filled(p: seq<nat>, j: nat, x: seq<nat>) {
    |p| == 32 && |x| == 4 && forall i :: 0 <= i < 4 ==> x[i] < 32 && p[x[i]] == 4 * j + i
  }

  /** What the right half has been changed by at these places. */
  function Change(before: seq<Bit>, after: seq<Bit>, x: seq<nat>): seq<Bit>
    requires |before| == 64 && |after| == 64 && |x| == 4 && forall i :: 0 <= i < 4 ==> x[i] < 32
  {
    [Sum(before[x[0]], after[32 + x[0]]), Sum(before[x[1]], after[32 + x[1]]),
     Sum(before[x[2]], after[32 + x[2]]), Sum(before[x[3]], after[32 + x[3]])]
  }

  /** The left half is the old right one. The right half is the old left one, changed by the
      eight numbers the selecting bits choose, with their bits where the permutation puts
      them. */
  ghost predicate Turns(t: Tables, before: seq<Bit>, after: seq<Bit>, k: seq<Bit>, e: seq<nat>)
    requires Good(t) && |before| == 64 && |after| == 64 && |k| == 48 && Positions(e, 48, 32)
  {
    && after[..32] == before[32..]
    && forall j: nat, x {:trigger Filled(t.p, j, x)} :: j < 8 && Filled(t.p, j, x) ==>
         var m := Selecting(before, k, e);
         16 * Row(m, j) + Column(m, j) < 64 && Number(Change(before, after, x)) == t.s[j][16 * Row(m, j) + Column(m, j)]
  }

  lemma {:induction false} RoundBit(t: Tables, lr: seq<Bit>, k: seq<Bit>, e: seq<nat>, x: nat)
    requires Good(t) && |lr| == 64 && |k| == 48 && Positions(e, 48, 32) && x < 32
    ensures Sum(lr[x], Round(t, lr, k, e)[32 + x]) == Chosen(t.s, Mixed(lr[32..], k, e), t.p[x])
  {
    var f := F(t, lr[32..], k, e);
    assert Round(t, lr, k, e)[32 + x] == XorAll(lr[..32], f)[x];
    assert lr[..32][x] == lr[x];
    XorExact(lr[x], f[x]);
  }

  lemma {:induction false} ChangeAt(t: Tables, lr: seq<Bit>, k: seq<Bit>, e: seq<nat>, j: nat, x: seq<nat>, i: nat)
    requires Good(t) && |lr| == 64 && |k| == 48 && Positions(e, 48, 32) && j < 8 && Filled(t.p, j, x) && i < 4
    ensures Sum(lr[x[i]], Round(t, lr, k, e)[32 + x[i]]) == ChosenAt(t.s, Mixed(lr[32..], k, e), j, i)
  {
    RoundBit(t, lr, k, e, x[i]);
  }

  lemma {:induction false} RoundNumber(t: Tables, lr: seq<Bit>, k: seq<Bit>, e: seq<nat>, j: nat, x: seq<nat>)
    requires Good(t) && Small(t.s) && |lr| == 64 && |k| == 48 && Positions(e, 48, 32) && j < 8 && Filled(t.p, j, x)
    ensures var m := Selecting(lr, k, e);
            16 * Row(m, j) + Column(m, j) < 64 && Number(Change(lr, Round(t, lr, k, e), x)) == t.s[j][16 * Row(m, j) + Column(m, j)]
  {
    SelectingExact(lr, k, e);
    ChosenWrite(t.s, Mixed(lr[32..], k, e), j);
    ChangeAt(t, lr, k, e, j, x, 0);
    ChangeAt(t, lr, k, e, j, x, 1);
    ChangeAt(t, lr, k, e, j, x, 2);
    ChangeAt(t, lr, k, e, j, x, 3);
  }

  /** That is what a round does. */
  lemma {:induction false} RoundExact(t: Tables, lr: seq<Bit>, k: seq<Bit>, e: seq<nat>)
    requires Good(t) && Small(t.s) && |lr| == 64 && |k| == 48 && Positions(e, 48, 32)
    ensures Turns(t, lr, Round(t, lr, k, e), k, e)
  {
    forall j: nat, x | j < 8 && Filled(t.p, j, x)
      ensures var m := Selecting(lr, k, e);
              16 * Row(m, j) + Column(m, j) < 64 && Number(Change(lr, Round(t, lr, k, e), x)) == t.s[j][16 * Row(m, j) + Column(m, j)]
    {
      RoundNumber(t, lr, k, e, j, x);
    }
  }

  // ---------- salt characters ----------

  /** The characters of a salt in the order of their values. */
  function SaltChar(n: nat): int
    requires n < 64
  {
    if n < 2 then '.' as int + n else if n < 12 then '0' as int + n - 2 else if n < 38 then 'A' as int + n - 12 else 'a' as int + n - 38
  }

  lemma {:induction false} SaltCharValue(n: nat)
    requires n < 64
    ensures SaltValue(SaltChar(n)) == n
  {
  }
}
