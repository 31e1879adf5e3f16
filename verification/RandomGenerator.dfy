/** The random number generator, with its state kept in arrays of words. */
module RandomGenerator {
  import opened RandomSpec

  const MAX_TYPES: int := 5

  /** What a state array holds while another one is in use: word 0 has the kind and the
      rear pointer. */
  ghost predicate Restorable(a: array<Long>)
    reads a
  {
    && a.Length > 1 && a[0] >= 0 && Words(a[0] % MAX_TYPES) < a.Length
    && (a[0] % MAX_TYPES == 0 ==> a[0] == 0)
    && (a[0] % MAX_TYPES != 0 ==> a[0] / MAX_TYPES < Deg(a[0] % MAX_TYPES))
  }

  ghost function Saved(a: array<Long>): (g: Gen)
    requires Restorable(a)
    reads a
    ensures Linked(g)
  {
    var kind, rear := a[0] % MAX_TYPES, a[0] / MAX_TYPES;
    Gen(kind, a[1..Words(kind) + 1], if kind == 0 then 0 else Place(rear, Sep(kind), Deg(kind)), rear)
  }

  class Rng {
    var kind: nat
    var deg: nat
    var sep: nat
    var table: array<Long>
    var front: nat
    var rear: nat

    /** The generator a program starts with: the third kind on the given table. */
    constructor (words: seq<Long>)
      requires |words| == Deg(3)
      ensures Valid() && fresh(table) && Active() == Gen(3, words, Sep(3), 0)
      ensures Restorable(table) && Saved(table) == Active() && table[0] == 3
    {
      kind, deg, sep := 3, Deg(3), Sep(3);
      front, rear := Sep(3), 0;
      table := new Long[Deg(3) + 1](k => if 0 < k <= |words| then words[k - 1] else 3);
      new;
      assert table[1..Words(kind) + 1] == words;
    }

    ghost predicate Valid()
      reads this, table
    {
      && kind < 5 && deg == Deg(kind) && sep == Sep(kind) && Words(kind) < table.Length
      && Linked(Active())
    }

    /** The generator in use. The pointers of the kind without feedback mean nothing. */
    ghost function Active(): Gen
      requires Words(kind) < table.Length
      reads this, table
    {
      Gen(kind, table[1..Words(kind) + 1], if kind == 0 then 0 else front, if kind == 0 then 0 else rear)
    }

    /** Draws a number. */
    method Random() returns (i: Long)
      requires Valid()
      modifies `front, `rear, table
      ensures Valid() && old(Active()).front < |old(Active()).words| && old(Active()).rear < |old(Active()).words|
      ensures Active() == Next(old(Active())) && i == Drawn(old(Active())) && table[0] == old(table[0])
    {
      ghost var g := Active();
      NextLinked(g);
      if kind == 0 {
        i := GoodRand(table[1]) % 0x8000_0000;
        table[1] := i;
        assert Active() == Next(g);
      } else {
        var f, r := front, rear;
        table[1 + f] := Add(table[1 + f], table[1 + r]);
        i := Upper(table[1 + f]);
        f := f + 1;
        if f >= deg {
          f := 0;
          r := r + 1;
        } else {
          r := r + 1;
          if r >= deg {
            r := 0;
          }
        }
        front, rear := f, r;
        assert Active() == Next(g);
      }
    }

    /** Throws numbers away. */
    method Discard(n: nat, ghost g: Gen)
      requires Valid() && Active() == g
      modifies `front, `rear, table
      ensures Valid() && Active() == After(g, n) && table[0] == old(table[0])
    {
      for i := 0 to n
        invariant Valid() && Active() == After(g, i) && table[0] == old(table[0])
      {
        var _ := Random();
      }
    }

    /** Spreads a seed over the words of the table. */
    method Spread(seed: Long)
      requires kind < 5 && deg == Deg(kind) && Words(kind) < table.Length
      modifies table
      ensures table[1..Words(kind) + 1] == Seeded(kind, seed).words && table[0] == old(table[0])
    {
      table[1] := seed;
      for i := 1 to Words(kind)
        invariant table[0] == old(table[0])
        invariant forall k :: 0 <= k < i ==> table[1 + k] == SeedWord(seed, k)
      {
        table[1 + i] := GoodRand(table[i]);
      }
    }

    /** Seeds the generator: the words follow from the seed, and then some numbers are
        thrown away. */
    method SRandom(seed: Long)
      requires kind < 5 && deg == Deg(kind) && sep == Sep(kind) && Words(kind) < table.Length
      modifies `front, `rear, table
      ensures Valid() && Active() == After(Seeded(kind, seed), Discards(kind)) && table[0] == old(table[0])
    {
      Spread(seed);
      if kind == 0 {
        Discard(NSHUFF, Seeded(kind, seed));
      } else {
        front, rear := sep, 0;
        Discard(10 * deg, Seeded(kind, seed));
      }
    }

    /** Notes kind and rear pointer of the generator in use in word 0 of its table. */
    method Save()
      requires Valid()
      modifies table
      ensures Valid() && Active() == old(Active()) && Restorable(table) && Saved(table) == Active()
      ensures forall k :: 1 <= k < table.Length ==> table[k] == old(table[k])
    {
      if kind == 0 {
        table[0] := kind;
      } else {
        table[0] := MAX_TYPES * rear + kind;
      }
      assert table[0] % MAX_TYPES == kind && table[0] / MAX_TYPES == Active().rear;
      assert table[1..Words(kind) + 1] == old(table[1..Words(kind) + 1]);
    }

    /** Goes over to the generator of another array. */
    method SetState(state: array<Long>)
      requires Valid() && Restorable(state)
      modifies this, table, state
      ensures Valid() && table == state && Active() == old(Saved(state))
      ensures state != old(table) ==>
        Restorable(old(table)) && Saved(old(table)) == old(Active()) && state[0] == old(state[0]) && Restorable(state)
      ensures state == old(table) ==> state[0] == MAX_TYPES * old(Active()).rear + old(kind) && Restorable(state)
      ensures state == old(table) ==>
        (Active() == old(Active()) <==> old(state[0]) == MAX_TYPES * old(Active()).rear + old(kind))
    {
      var newKind, newRear := state[0] % MAX_TYPES, state[0] / MAX_TYPES;
      ghost var words := state[1..Words(newKind) + 1];
      Save();
      assert state[1..Words(newKind) + 1] == words;
      Restore(state, newKind, newRear);
    }

    /** Takes kind and pointers of the generator in use from what was noted. */
    method Restore(state: array<Long>, newKind: nat, newRear: nat)
      requires newKind < 5 && Words(newKind) < state.Length && if newKind == 0 then newRear == 0 else newRear < Deg(newKind)
      modifies this
      ensures Valid() && table == state
      ensures Active() == Gen(newKind, state[1..Words(newKind) + 1], if newKind == 0 then 0 else Place(newRear, Sep(newKind), Deg(newKind)), newRear)
    {
      kind := newKind;
      deg := Deg(newKind);
      sep := Sep(newKind);
      table := state;
      if kind != 0 {
        rear := newRear;
        PlaceMod(newRear, sep, deg);
        front := (newRear + sep) % deg;
      }
    }

    /** The generator that suits a number of bytes. */
    method ChooseKind(n: int) returns (k: nat)
      requires n >= 8
      ensures k < 5 && 4 * (Words(k) + 1) <= n && forall j: nat :: j < 5 && 4 * (Words(j) + 1) <= n ==> j <= k
    {
      if n < 32 {
        k := 0;
      } else if n < 64 {
        k := 1;
      } else if n < 128 {
        k := 2;
      } else if n < 256 {
        k := 3;
      } else {
        k := 4;
      }
    }

    /** Sets up a generator in an array of n bytes and goes over to it. */
    method InitState(seed: Long, state: array<Long>, n: int) returns (ok: bool)
      requires Valid() && n <= 4 * state.Length
      modifies this, table, state
      ensures Valid() && ok == (n >= 8)
      ensures !ok ==> table == old(table) && Active() == old(Active()) && Restorable(table) && Saved(table) == Active()
      ensures ok ==> table == state && Active() == After(Seeded(kind, seed), Discards(kind))
      ensures ok ==> 4 * (Words(kind) + 1) <= n && forall j: nat :: j < 5 && 4 * (Words(j) + 1) <= n ==> j <= kind
      ensures ok ==> Restorable(state) && Saved(state) == Active()
      ensures ok && state != old(table) ==> Restorable(old(table)) && Saved(old(table)) == old(Active())
    {
      Save();
      ok := n >= 8;
      if ok {
        kind := ChooseKind(n);
        deg := Deg(kind);
        sep := Sep(kind);
        table := state;
        SRandom(seed);
        Save();
      }
    }
  }
}
