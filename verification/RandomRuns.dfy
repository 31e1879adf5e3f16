/**
 Runs that switch between the generators of several state arrays. The array in use keeps
 the rear pointer that was noted in it last: going over to another array notes the current
 one, and going over to the same array exchanges the two.
 */
module RandomRuns {
  import opened RandomSpec

  datatype Op = Draw | Switch(id: nat)

  /** noted is the rear pointer that the array in use would be restored with. */
  datatype World = World(gens: seq<Gen>, active: nat, noted: nat)

  ghost predicate Sane(w: World) {
    && w.active < |w.gens| && (forall i :: 0 <= i < |w.gens| ==> Linked(w.gens[i]))
    && (if w.gens[w.active].kind == 0 then w.noted == 0 else w.noted < Deg(w.gens[w.active].kind))
  }

  ghost predicate Legal(w: World, op: Op) {
    op.Switch? ==> op.id < |w.gens|
  }

  /** The generator with its pointers put where the rear pointer says. */
  ghost function Back(g: Gen, rear: nat): Gen {
    if g.kind == 0 then g else g.(front := Place(rear, Sep(g.kind), Deg(g.kind)), rear := rear)
  }

  ghost function Step(w: World, op: Op): (v: World)
    requires Sane(w) && Legal(w, op)
    ensures Sane(v) && |v.gens| == |w.gens|
  {
    var g := w.gens[w.active];
    match op
    case Switch(id) =>
      if id == w.active then World(w.gens[id := Back(g, w.noted)], id, g.rear) else World(w.gens, id, w.gens[id].rear)
    case Draw =>
      NextLinked(g);
      w.(gens := w.gens[w.active := Next(g)])
  }

  ghost predicate AllLegal(w: World, ops: seq<Op>)
    requires Sane(w)
    decreases |ops|
  {
    ops == [] || (Legal(w, ops[0]) && AllLegal(Step(w, ops[0]), ops[1..]))
  }

  ghost function Run(w: World, ops: seq<Op>): (v: World)
    requires Sane(w) && AllLegal(w, ops)
    ensures Sane(v) && |v.gens| == |w.gens|
    decreases |ops|
  {
    if ops == [] then w else Run(Step(w, ops[0]), ops[1..])
  }

  /** The number a draw gives. */
  ghost function Number(w: World): Long
    requires Sane(w)
  {
    NextLinked(w.gens[w.active]);
    Drawn(w.gens[w.active])
  }

  /** The numbers drawn from one of the generators in a run. */
  ghost function Outputs(w: World, ops: seq<Op>, id: nat): seq<Long>
    requires Sane(w) && AllLegal(w, ops)
    decreases |ops|
  {
    if ops == [] then []
    else if ops[0].Draw? && w.active == id then [Number(w)] + Outputs(Step(w, ops[0]), ops[1..], id)
    else Outputs(Step(w, ops[0]), ops[1..], id)
  }

  /** The numbers a generator gives when it is left alone. */
  ghost function Alone(g: Gen, n: nat): seq<Long>
    requires Linked(g)
    decreases n
  {
    if n == 0 then [] else
      NextLinked(g);
      [Drawn(g)] + Alone(Next(g), n - 1)
  }

  /** Going over to the array in use needs its rear pointer to be the one noted. */
  ghost predicate Harmless(w: World, op: Op)
    requires Sane(w)
  {
    op == Switch(w.active) ==> w.noted == w.gens[w.active].rear
  }

  /** A step leaves every generator alone, but for a number drawn, exactly when it is harmless. */
  lemma {:induction false} HarmlessExact(w: World, op: Op)
    requires Sane(w) && Legal(w, op)
    ensures Harmless(w, op) <==> forall id :: 0 <= id < |w.gens| && !(op.Draw? && id == w.active) ==> Step(w, op).gens[id] == w.gens[id]
  {
    if op == Switch(w.active) {
      assert Step(w, op).gens[w.active] == Back(w.gens[w.active], w.noted);
    }
  }

  ghost predicate Undisturbed(w: World, ops: seq<Op>)
    requires Sane(w) && AllLegal(w, ops)
    decreases |ops|
  {
    ops == [] || (Harmless(w, ops[0]) && Undisturbed(Step(w, ops[0]), ops[1..]))
  }

  lemma {:induction false} DrawFirst(g: Gen, rest: seq<Long>)
    requires Linked(g) && g.front < |g.words| && g.rear < |g.words| && Linked(Next(g)) && rest == Alone(Next(g), |rest|)
    ensures [Drawn(g)] + rest == Alone(g, |rest| + 1)
  {
  }

  /** Switching does not disturb a generator: it gives the numbers it would have given alone. */
  lemma {:induction false} SwitchingHarmless(w: World, ops: seq<Op>, id: nat)
    requires Sane(w) && AllLegal(w, ops) && Undisturbed(w, ops) && id < |w.gens|
    ensures Outputs(w, ops, id) == Alone(w.gens[id], |Outputs(w, ops, id)|)
    decreases |ops|
  {
    if ops != [] {
      HarmlessExact(w, ops[0]);
      SwitchingHarmless(Step(w, ops[0]), ops[1..], id);
      if ops[0].Draw? && w.active == id {
        NextLinked(w.gens[id]);
        DrawFirst(w.gens[id], Outputs(Step(w, ops[0]), ops[1..], id));
      }
    }
  }
}
