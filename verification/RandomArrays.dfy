/** Switching between state arrays, with the generators kept in the arrays themselves. */
module RandomArrays {
  import opened RandomSpec
  import opened RandomRuns
  import opened RandomGenerator

  ghost predicate Distinct(arrays: seq<array<Long>>) {
    forall i, j :: 0 <= i < j < |arrays| ==> arrays[i] != arrays[j]
  }

  /** g is the generator of array i: that of the array in use is in the variables and in
      the table, that of any other array is noted in its word 0. */
  ghost predicate Holds(rng: Rng, arrays: seq<array<Long>>, active: nat, i: nat, g: Gen)
    requires i < |arrays| && rng.Valid()
    reads rng, rng.table, arrays
  {
    Restorable(arrays[i]) && g == if i == active then rng.Active() else Saved(arrays[i])
  }

  /** The generator and the arrays together hold the generators of w. */
  ghost predicate Shows(rng: Rng, arrays: seq<array<Long>>, active: nat, w: World)
    reads rng, rng.table, arrays
  {
    && active < |arrays| && Distinct(arrays) && rng.Valid() && rng.table == arrays[active]
    && |w.gens| == |arrays| && (forall i :: 0 <= i < |arrays| ==> Holds(rng, arrays, active, i, w.gens[i]))
    && w.active == active && rng.table[0] == MAX_TYPES * w.noted + rng.kind
  }

  lemma {:induction false} ShowsSane(rng: Rng, arrays: seq<array<Long>>, active: nat, w: World)
    requires Shows(rng, arrays, active, w)
    ensures Sane(w)
  {
    forall i | 0 <= i < |w.gens| ensures Linked(w.gens[i]) {
      assert Holds(rng, arrays, active, i, w.gens[i]);
    }
    assert Holds(rng, arrays, active, active, w.gens[active]);
  }

  method DrawNumber(rng: Rng, arrays: seq<array<Long>>, active: nat, ghost w: World) returns (x: Long)
    requires Shows(rng, arrays, active, w) && Sane(w)
    modifies rng, arrays
    ensures x == Number(w) && Shows(rng, arrays, active, Step(w, Draw))
  {
    assert Holds(rng, arrays, active, active, w.gens[active]);
    ghost var v := Step(w, Draw);
    x := rng.Random();
    forall i | 0 <= i < |arrays| ensures Holds(rng, arrays, active, i, v.gens[i]) {
      assert old(Holds(rng, arrays, active, i, w.gens[i]));
    }
  }

  method SwitchTo(rng: Rng, arrays: seq<array<Long>>, active: nat, id: nat, ghost w: World)
    requires Shows(rng, arrays, active, w) && Sane(w) && id < |arrays|
    modifies rng, arrays
    ensures Shows(rng, arrays, id, Step(w, Switch(id)))
  {
    assert Holds(rng, arrays, active, active, w.gens[active]) && Holds(rng, arrays, active, id, w.gens[id]);
    ghost var v := Step(w, Switch(id));
    rng.SetState(arrays[id]);
    forall i | 0 <= i < |arrays| ensures Holds(rng, arrays, id, i, v.gens[i]) {
      assert old(Holds(rng, arrays, active, i, w.gens[i]));
    }
  }

  /** The numbers of a list that were drawn from one of the arrays. */
  ghost function From(drawn: seq<(nat, Long)>, id: nat): seq<Long> {
    if drawn == [] then []
    else if drawn[0].0 == id then [drawn[0].1] + From(drawn[1..], id)
    else From(drawn[1..], id)
  }

  lemma {:induction false} FromFirst(first: (nat, Long), rest: seq<(nat, Long)>, id: nat)
    ensures From([first] + rest, id) == if first.0 == id then [first.1] + From(rest, id) else From(rest, id)
  {
    assert ([first] + rest)[1..] == rest;
  }

  /** Any sequence of calls of random and setstate: what is drawn are the outputs of the run. */
  method Perform(rng: Rng, arrays: seq<array<Long>>, start: nat, ops: seq<Op>, ghost w: World) returns (active: nat, drawn: seq<(nat, Long)>)
    requires Shows(rng, arrays, start, w) && Sane(w) && AllLegal(w, ops)
    modifies rng, arrays
    ensures Shows(rng, arrays, active, Run(w, ops))
    ensures forall id: nat :: From(drawn, id) == Outputs(w, ops, id)
    decreases |ops|
  {
    if ops == [] {
      return start, [];
    }
    match ops[0]
    case Switch(id) =>
      SwitchTo(rng, arrays, start, id, w);
      active, drawn := Perform(rng, arrays, id, ops[1..], Step(w, ops[0]));
    case Draw =>
      var x := DrawNumber(rng, arrays, start, w);
      var rest;
      active, rest := Perform(rng, arrays, start, ops[1..], Step(w, ops[0]));
      drawn := [(start, x)] + rest;
      forall id: nat ensures From(drawn, id) == Outputs(w, ops, id) {
        FromFirst((start, x), rest, id);
      }
  }

  /** The arrays of a program: distinct, each of them set up, and one of them in use. */
  ghost predicate Ready(rng: Rng, arrays: seq<array<Long>>, active: nat)
    reads rng, rng.table, arrays
  {
    && active < |arrays| && Distinct(arrays) && rng.Valid() && rng.table == arrays[active]
    && (forall i :: 0 <= i < |arrays| ==> Restorable(arrays[i])) && rng.table[0] % MAX_TYPES == rng.kind
  }

  lemma {:induction false} ReadyShows(rng: Rng, arrays: seq<array<Long>>, active: nat) returns (w: World)
    requires Ready(rng, arrays, active)
    ensures Shows(rng, arrays, active, w) && Sane(w)
    ensures forall i: nat :: i < |arrays| ==> w.gens[i] == if i == active then rng.Active() else Saved(arrays[i])
  {
    var gens := seq(|arrays|, i requires 0 <= i < |arrays| && rng.Valid() && Restorable(arrays[i]) reads rng, rng.table, arrays =>
      if i == active then rng.Active() else Saved(arrays[i]));
    w := World(gens, active, rng.table[0] / MAX_TYPES);
    ShowsSane(rng, arrays, active, w);
  }

  lemma {:induction false} ShowsReady(rng: Rng, arrays: seq<array<Long>>, active: nat, w: World)
    requires Shows(rng, arrays, active, w)
    ensures Ready(rng, arrays, active)
  {
    forall i | 0 <= i < |arrays| ensures Restorable(arrays[i]) {
      assert Holds(rng, arrays, active, i, w.gens[i]);
    }
  }

  lemma {:induction false} AllAlone(w: World, ops: seq<Op>, drawn: seq<(nat, Long)>)
    requires Sane(w) && AllLegal(w, ops) && Undisturbed(w, ops)
    requires forall id: nat :: From(drawn, id) == Outputs(w, ops, id)
    ensures forall id: nat :: id < |w.gens| ==> From(drawn, id) == Alone(w.gens[id], |From(drawn, id)|)
  {
    forall id: nat | id < |w.gens| ensures From(drawn, id) == Alone(w.gens[id], |From(drawn, id)|) {
      SwitchingHarmless(w, ops, id);
    }
  }

  /** Every switch is to one of the other arrays. */
  predicate Alternates(n: nat, active: nat, ops: seq<Op>)
    decreases |ops|
  {
    ops == [] ||
    match ops[0]
    case Draw => Alternates(n, active, ops[1..])
    case Switch(id) => id < n && id != active && Alternates(n, id, ops[1..])
  }

  lemma {:induction false} AlternatesUndisturbed(w: World, ops: seq<Op>)
    requires Sane(w) && Alternates(|w.gens|, w.active, ops)
    ensures AllLegal(w, ops) && Undisturbed(w, ops)
    decreases |ops|
  {
    if ops != [] {
      AlternatesUndisturbed(Step(w, ops[0]), ops[1..]);
    }
  }

  /** Switching between distinct arrays gives from each of them the numbers its generator
      would have given without interruption. */
  method Interleave(rng: Rng, arrays: seq<array<Long>>, start: nat, ops: seq<Op>) returns (active: nat, drawn: seq<(nat, Long)>)
    requires Ready(rng, arrays, start) && Alternates(|arrays|, start, ops)
    modifies rng, arrays
    ensures Ready(rng, arrays, active)
    ensures From(drawn, start) == Alone(old(rng.Active()), |From(drawn, start)|)
    ensures forall id: nat :: id < |arrays| && id != start ==> From(drawn, id) == Alone(old(Saved(arrays[id])), |From(drawn, id)|)
  {
    ghost var w := ReadyShows(rng, arrays, start);
    AlternatesUndisturbed(w, ops);
    active, drawn := Perform(rng, arrays, start, ops, w);
    AllAlone(w, ops, drawn);
    ShowsReady(rng, arrays, active, Run(w, ops));
  }

  /** A new generator of the third kind in an array of its own. */
  method SetUp(words: seq<Long>, seed: Long) returns (rng: Rng, state: array<Long>)
    requires |words| == Deg(3)
    ensures fresh(rng) && fresh(state) && rng.Valid() && rng.table == state && rng.kind == 3
    ensures Restorable(state) && Saved(state) == rng.Active() && rng.rear == 0
  {
    rng := new Rng(words);
    state := new Long[32];
    var _ := rng.InitState(seed, state, 128);
    assert rng.kind == 3;
    SeededPointers(3, seed);
  }

  /** A call of setstate with the array in use takes the pointers back to where they were
      when the array was set up: here after one number. */
  method SameArray(words: seq<Long>, seed: Long) returns (before: nat, after: nat)
    requires |words| == Deg(3)
    ensures before == 1 && after == 0
  {
    var rng, state := SetUp(words, seed);
    NextLinked(rng.Active());
    var _ := rng.Random();
    before := rng.rear;
    rng.SetState(state);
    after := rng.rear;
  }
}
