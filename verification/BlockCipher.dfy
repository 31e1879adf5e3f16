/** The block cipher as it works on arrays of bits. */
module BlockCipher {
  import opened CipherSpec
  import opened CipherRound
  import StandardCipher
  import StandardTables

  /** The key schedule and what it is computed from. */
  class Sched {
    const t: Tables
    const c: array<Bit>
    const d: array<Bit>
    const ks: array2<Bit>
    const e: array<nat>

    ghost predicate Shape() {
      Good(t) && Small(t.s) && c.Length == 28 && d.Length == 28 && ks.Length0 == 16 && ks.Length1 == 48 && e.Length == 48 && c != d
    }

    ghost function Key(i: nat): (k: seq<Bit>)
      requires Shape() && i < 16
      reads ks
      ensures |k| == 48
    {
      seq(48, j requires 0 <= j < 48 reads ks => ks[i, j])
    }

    ghost function Keys(): (s: seq<seq<Bit>>)
      requires Shape()
      reads ks
      ensures |s| == 16 && Schedule(s)
    {
      seq(16, i requires 0 <= i < 16 reads ks => Key(i))
    }

    constructor ()
      ensures Shape() && t == StandardCipher.Standard()
      ensures fresh(c) && fresh(d) && fresh(ks) && fresh(e)
    {
      StandardCipher.StandardGood();
      StandardTables.StandardSmall();
      t := StandardCipher.Standard();
      c := new Bit[28];
      d := new Bit[28];
      ks := new Bit[16, 48];
      e := new nat[48];
    }

    // ---------- the key schedule ----------

    /** Rotates a register to the left by one place. */
    static method Rotate(a: array<Bit>)
      requires a.Length == 28
      modifies a
      ensures a[..] == old(a[..])[1..] + [old(a[0])]
    {
      var first := a[0];
      for j := 0 to 27
        invariant forall k :: 0 <= k < 28 ==> a[k] == old(a[if k < j then k + 1 else k])
      {
        a[j] := a[j + 1];
      }
      a[27] := first;
    }

    method Turned(n: nat, ghost c0: seq<Bit>, ghost d0: seq<Bit>, ghost m: nat)
      requires Shape() && |c0| == 28 && |d0| == 28 && c[..] == Rotated(c0, m) && d[..] == Rotated(d0, m)
      modifies c, d
      ensures c[..] == Rotated(c0, m + n) && d[..] == Rotated(d0, m + n)
    {
      for k := 0 to n
        invariant c[..] == Rotated(c0, m + k) && d[..] == Rotated(d0, m + k)
      {
        RotatedOnce(c0, m + k);
        RotatedOnce(d0, m + k);
        Rotate(c);
        Rotate(d);
      }
    }

    /** Picks the key of round i from the registers. */
    method Pick(i: nat)
      requires Shape() && i < 16
      modifies ks
      ensures forall j :: 0 <= j < 24 ==> ks[i, j] == c[t.pc2c[j]] && ks[i, j + 24] == d[t.pc2d[j]]
      ensures forall r, j :: 0 <= r < 16 && r != i && 0 <= j < 48 ==> ks[r, j] == old(ks[r, j])
    {
      for j := 0 to 24
        invariant forall k :: 0 <= k < j ==> ks[i, k] == c[t.pc2c[k]] && ks[i, k + 24] == d[t.pc2d[k]]
        invariant forall r, k :: 0 <= r < 16 && r != i && 0 <= k < 48 ==> ks[r, k] == old(ks[r, k])
      {
        ks[i, j] := c[t.pc2c[j]];
        ks[i, j + 24] := d[t.pc2d[j]];
      }
    }

    /** The registers as they are loaded from the key. */
    method Load(key: array<Bit>)
      requires Shape() && key.Length >= 64 && key != c && key != d
      modifies c, d
      ensures c[..] == Select(key[..], t.pc1c) && d[..] == Select(key[..], t.pc1d)
    {
      for i := 0 to 28
        invariant forall k :: 0 <= k < i ==> c[k] == key[t.pc1c[k]] && d[k] == key[t.pc1d[k]]
      {
        c[i] := key[t.pc1c[i]];
        d[i] := key[t.pc1d[i]];
      }
    }

    /** The keys of the first n rounds are set. */
    ghost predicate Scheduled(key: seq<Bit>, n: nat)
      requires Shape() && |key| >= 64 && n <= 16
      reads ks
    {
      forall i, j {:trigger KeyBit(t, key, i, j)} :: 0 <= i < n && 0 <= j < 48 ==> ks[i, j] == KeyBit(t, key, i, j)
    }

    ghost predicate TurnedTo(key: seq<Bit>, n: nat)
      requires Shape() && |key| >= 64 && n <= 16
      reads c, d
    {
      c[..] == Rotated(Select(key, t.pc1c), Turn(t.shifts, n)) && d[..] == Rotated(Select(key, t.pc1d), Turn(t.shifts, n))
    }

    lemma {:induction false} PickedBit(i: nat, key: seq<Bit>, j: nat)
      requires Shape() && i < 16 && j < 48 && |key| >= 64 && TurnedTo(key, i + 1)
      requires ks[i, j] == if j < 24 then c[t.pc2c[j]] else d[t.pc2d[j - 24]]
      ensures ks[i, j] == KeyBit(t, key, i, j)
    {
      if j < 24 {
        assert ks[i, j] == c[..][t.pc2c[j]];
      } else {
        assert ks[i, j] == d[..][t.pc2d[j - 24]];
      }
    }

    /** Round i of the schedule. */
    method ScheduleRound(i: nat, ghost key: seq<Bit>)
      requires Shape() && i < 16 && |key| >= 64 && TurnedTo(key, i) && Scheduled(key, i)
      modifies c, d, ks
      ensures TurnedTo(key, i + 1) && Scheduled(key, i + 1)
    {
      Turned(t.shifts[i], Select(key, t.pc1c), Select(key, t.pc1d), Turn(t.shifts, i));
      Pick(i);
      forall j | 0 <= j < 48 ensures ks[i, j] == KeyBit(t, key, i, j) {
        assert j >= 24 ==> ks[i, (j - 24) + 24] == d[t.pc2d[j - 24]];
        PickedBit(i, key, j);
      }
    }

    method CopySelection()
      requires Shape()
      modifies e
      ensures e[..] == t.e
    {
      for i := 0 to 48
        invariant forall k :: 0 <= k < i ==> e[k] == t.e[k]
      {
        e[i] := t.e[i];
      }
    }

    /** Sets up the schedule: each bit is one of the key, and the registers end up as they
        were loaded. */
    method SetKey(key: array<Bit>)
      requires Shape() && key.Length >= 64 && key != c && key != d
      modifies c, d, ks, e
      ensures Scheduled(key[..], 16) && e[..] == t.e
      ensures c[..] == Select(key[..], t.pc1c) && d[..] == Select(key[..], t.pc1d)
    {
      Load(key);
      ghost var bits := key[..];
      RotatedFull(c[..]);
      RotatedFull(d[..]);
      for i := 0 to 16
        invariant TurnedTo(bits, i) && Scheduled(bits, i)
      {
        ScheduleRound(i, bits);
      }
      RotatedFull(Select(bits, t.pc1c));
      RotatedFull(Select(bits, t.pc1d));
      CopySelection();
    }

    // ---------- salt ----------

    /** The first n entries of both halves are as the salt wants them, the rest as before. */
    ghost predicate SaltedTo(before: seq<nat>, salt: (int, int), n: nat)
      requires Shape() && |before| == 48 && n <= 12
      reads e
    {
      forall k :: 0 <= k < 48 ==>
        e[k] == before[if k < n || 24 <= k < 24 + n then Partner(salt, k) else k]
    }

    /** Handles one bit of the salt: exchanges the entries at n and n + 24 if it is set. */
    method SaltStep(n: nat, exchange: bool, ghost before: seq<nat>, ghost salt: (int, int))
      requires Shape() && |before| == 48 && n < 12 && SaltedTo(before, salt, n) && exchange == Exchanged(salt, n)
      modifies e
      ensures SaltedTo(before, salt, n + 1)
    {
      if exchange {
        var temp := e[n];
        e[n] := e[n + 24];
        e[n + 24] := temp;
      }
    }

    method Salt(salt: (int, int))
      requires Shape()
      modifies e
      ensures e[..] == Salted(old(e[..]), salt)
    {
      ghost var before := e[..];
      for i := 0 to 2
        invariant SaltedTo(before, salt, 6 * i)
      {
        for j := 0 to 6
          invariant SaltedTo(before, salt, 6 * i + j)
        {
          SaltStep(6 * i + j, SaltBit(if i == 0 then salt.0 else salt.1, j), before, salt);
        }
      }
    }

    // ---------- a block ----------

    /** Expands the right half and combines it with the key of round i. */
    method Mix(lr: array<Bit>, i: nat) returns (preS: array<Bit>)
      requires Shape() && lr.Length == 64 && i < 16 && Positions(e[..], 48, 32)
      ensures fresh(preS) && preS.Length == 48 && preS[..] == Mixed(lr[32..], Key(i), e[..])
    {
      preS := new Bit[48];
      ghost var r := lr[32..];
      for j := 0 to 48
        invariant forall k :: 0 <= k < j ==> preS[k] == Xor(r[e[..][k]], ks[i, k])
      {
        assert e[..][j] == e[j];
        preS[j] := Xor(lr[32 + e[j]], ks[i, j]);
      }
    }

    /** One selection: four of the bits. */
    method ChooseOne(preS: array<Bit>, f: array<Bit>, j: nat)
      requires Shape() && preS.Length == 48 && f.Length == 32 && preS != f && j < 8
      modifies f
      ensures forall n :: 0 <= n < 32 && n / 4 != j ==> f[n] == old(f[n])
      ensures forall n :: 0 <= n < 32 && n / 4 == j ==> f[n] == Chosen(t.s, preS[..], n)
    {
      var k := t.s[j][Place(preS[..], j)];
      f[4 * j] := Digit(k, 0);
      f[4 * j + 1] := Digit(k, 1);
      f[4 * j + 2] := Digit(k, 2);
      f[4 * j + 3] := Digit(k, 3);
    }

    /** The eight selections. */
    method Choose(preS: array<Bit>) returns (f: array<Bit>)
      requires Shape() && preS.Length == 48
      ensures fresh(f) && f.Length == 32 && forall n :: 0 <= n < 32 ==> f[n] == Chosen(t.s, preS[..], n)
    {
      f := new Bit[32];
      for j := 0 to 8
        invariant forall n :: 0 <= n < 32 && n / 4 < j ==> f[n] == Chosen(t.s, preS[..], n)
      {
        ChooseOne(preS, f, j);
      }
    }

    /** The right half becomes the left one combined with the permuted selections. */
    method Combine(lr: array<Bit>, f: array<Bit>)
      requires Shape() && lr.Length == 64 && f.Length == 32 && lr != f
      modifies lr
      ensures lr[..32] == old(lr[..32])
      ensures forall k :: 0 <= k < 32 ==> lr[32 + k] == Xor(lr[k], f[t.p[k]])
    {
      for j := 0 to 32
        invariant lr[..32] == old(lr[..32])
        invariant forall k :: 0 <= k < j ==> lr[32 + k] == Xor(lr[k], f[t.p[k]])
      {
        lr[32 + j] := Xor(lr[j], f[t.p[j]]);
      }
    }

    /** Copies the saved right half over the left one. */
    static method CopyBack(lr: array<Bit>, tempL: array<Bit>)
      requires lr.Length == 64 && tempL.Length == 32 && lr != tempL
      modifies lr
      ensures lr[..32] == tempL[..] && lr[32..] == old(lr[32..])
    {
      for j := 0 to 32
        invariant forall k :: 0 <= k < j ==> lr[k] == tempL[k]
        invariant lr[32..] == old(lr[32..])
      {
        lr[j] := tempL[j];
      }
    }

    static method SaveRight(lr: array<Bit>) returns (tempL: array<Bit>)
      requires lr.Length == 64
      ensures fresh(tempL) && tempL[..] == lr[32..]
    {
      tempL := new Bit[32];
      for j := 0 to 32
        invariant forall k :: 0 <= k < j ==> tempL[k] == lr[32 + k]
      {
        tempL[j] := lr[32 + j];
      }
    }

    /** One round in place. */
    method OneRound(lr: array<Bit>, i: nat)
      requires Shape() && lr.Length == 64 && i < 16 && Positions(e[..], 48, 32)
      modifies lr
      ensures lr[..] == Round(t, old(lr[..]), Key(i), e[..]) && Turns(t, old(lr[..]), lr[..], Key(i), e[..])
    {
      ghost var before := lr[..];
      var tempL := SaveRight(lr);
      var preS := Mix(lr, i);
      var f := Choose(preS);
      Combine(lr, f);
      assert lr[32..] == XorAll(before[..32], F(t, before[32..], Key(i), e[..]));
      CopyBack(lr, tempL);
      assert lr[..] == lr[..32] + lr[32..];
      RoundExact(t, before, Key(i), e[..]);
    }

    /** Permutes the bits of the block. */
    method Enter(block: array<Bit>) returns (lr: array<Bit>)
      requires Shape() && block.Length >= 64
      ensures fresh(lr) && lr.Length == 64 && lr[..] == Select(block[..64], t.ip)
    {
      lr := new Bit[64];
      for j := 0 to 64
        invariant forall k :: 0 <= k < j ==> lr[k] == block[t.ip[k]]
      {
        lr[j] := block[t.ip[j]];
      }
    }

    /** Exchanges the halves. */
    static method FlipHalves(lr: array<Bit>)
      requires lr.Length == 64
      modifies lr
      ensures lr[..] == Flip(old(lr[..]))
    {
      for j := 0 to 32
        invariant forall k :: 0 <= k < 32 ==>
          if k < j then lr[k] == old(lr[32 + k]) && lr[32 + k] == old(lr[k]) else lr[k] == old(lr[k]) && lr[32 + k] == old(lr[32 + k])
      {
        var temp := lr[j];
        lr[j] := lr[32 + j];
        lr[32 + j] := temp;
      }
    }

    /** Permutes the bits back into the block. */
    method Leave(lr: array<Bit>, block: array<Bit>)
      requires Shape() && lr.Length == 64 && block.Length >= 64 && lr != block
      modifies block
      ensures block[..64] == Select(lr[..], t.fp) && block[64..] == old(block[64..])
    {
      for j := 0 to 64
        invariant forall k :: 0 <= k < j ==> block[k] == lr[t.fp[k]]
        invariant block[64..] == old(block[64..])
      {
        block[j] := lr[t.fp[j]];
      }
    }

    ghost function Order(back: bool): (s: seq<seq<Bit>>)
      requires Shape()
      reads ks
      ensures |s| == 16 && Schedule(s)
    {
      if back then Backwards(Keys()) else Keys()
    }

    /** Round ii in the order of the direction. */
    method RoundInOrder(lr: array<Bit>, back: bool, ii: nat, ghost x: seq<Bit>)
      requires Shape() && lr.Length == 64 && Positions(e[..], 48, 32) && ii < 16 && |x| == 64
      requires lr[..] == Rounds(t, x, Order(back)[..ii], e[..])
      modifies lr
      ensures lr[..] == Rounds(t, x, Order(back)[..ii + 1], e[..])
    {
      var i := if back then 15 - ii else ii;
      ghost var order := Order(back);
      assert order[ii] == Key(i);
      assert order[..ii + 1] == order[..ii] + [Key(i)];
      RoundsMore(t, x, order[..ii], Key(i), e[..]);
      OneRound(lr, i);
    }

    /** All sixteen rounds, in the order of the direction. */
    method AllRounds(lr: array<Bit>, back: bool)
      requires Shape() && lr.Length == 64 && Positions(e[..], 48, 32)
      modifies lr
      ensures lr[..] == Rounds(t, old(lr[..]), Order(back), e[..])
    {
      ghost var x := lr[..];
      assert Order(back)[..0] == [];
      for ii := 0 to 16
        invariant lr[..] == Rounds(t, x, Order(back)[..ii], e[..])
      {
        RoundInOrder(lr, back, ii, x);
      }
      assert Order(back)[..16] == Order(back);
    }

    /** Enciphers a block in place, or deciphers it when back is set. */
    method Encrypt(block: array<Bit>, back: bool)
      requires Shape() && block.Length >= 64 && Positions(e[..], 48, 32)
      modifies block
      ensures block[..64] == CipherSpec.Encrypt(t, old(block[..64]), Keys(), e[..], back)
      ensures block[64..] == old(block[64..])
    {
      var lr := Enter(block);
      AllRounds(lr, back);
      FlipHalves(lr);
      Leave(lr, block);
    }
  }
}
