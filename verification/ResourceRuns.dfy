/**
 Whole runs of a resource map: every unit is free, in use or lost, and the counter of
 lost units is exact.
 */
module ResourceRuns {
  import opened MachineWords
  import opened ResourceMap
  import opened ResourceSets
  import opened ResourceOperations

  datatype Op = Alloc(size: Word) | AllocAlign(size: Word, align: Word) | Free(offset: Word, size: Word) | Reserve(offset: Word, size: Word)

  /** The map, the units its callers hold, and the units nobody can get any more. */
  datatype State = State(rmap: Map, used: set<int>, gone: set<int>)

  /** Requests are for at least one unit, and only units in use are released. */
  ghost predicate Legal(st: State, op: Op) {
    && op.size > 0
    && (op.AllocAlign? ==> op.align > 0)
    && (op.Free? ==> Range(op.offset, op.size) <= st.used)
  }

  /** A reservation does not wrap around from a free unit, unless that unit is in a run that
      reaches the last word, where everything is refused. */
  ghost predicate Contained(m: Map, offset: Word, size: Word) {
    offset + size < W || offset !in FreeUnits(m) || InTop(m.entries, offset)
  }

  /** The reservations made by the operation are contained. */
  ghost predicate Harmless(m: Map, op: Op)
    requires op.AllocAlign? ==> op.align > 0
  {
    match op
    case Alloc(_) => true
    case AllocAlign(size, align) =>
      var k := FirstAligned(m.entries, size, align, 0);
      k < |m.entries| ==> Contained(m, Spot(m.entries[k], align), size)
    case Free(_, _) => true
    case Reserve(offset, size) => Contained(m, offset, size)
  }

  ghost function Step(st: State, op: Op): State
    requires Legal(st, op)
  {
    var m := st.rmap;
    match op
    case Alloc(size) =>
      var (n, idx) := ResourceMap.Alloc(m, size);
      if idx == 0 then st.(rmap := n) else State(n, st.used + Range(idx, size), st.gone)
    case AllocAlign(size, align) =>
      var (n, idx) := ResourceMap.AllocAlign(m, size, align);
      if idx == 0 then st.(rmap := n) else State(n, st.used + Range(idx, size), st.gone + Loss(m, idx, size))
    case Free(offset, size) =>
      State(ResourceMap.Free(m, offset, size), st.used - Range(offset, size), st.gone + FreeLoss(m, offset, size))
    case Reserve(offset, size) =>
      var (n, ok) := ResourceMap.Reserve(m, offset, size);
      if !ok then st.(rmap := n) else State(n, st.used + Range(offset, size), st.gone + Loss(m, offset, size))
  }

  /** The units a map may manage: index 0 stands for failure. */
  ghost predicate Universe(u: set<int>) {
    u <= Range(1, W - 1)
  }

  ghost predicate Partition(free: set<int>, used: set<int>, gone: set<int>, u: set<int>) {
    free + used + gone == u && free !! used && free !! gone && used !! gone
  }

  ghost predicate Inv(st: State, u: set<int>) {
    Valid(st.rmap) && Partition(FreeUnits(st.rmap), st.used, st.gone, u) && |st.gone| == st.rmap.lost
  }

  /** Every unit starts out in use: a map is filled by releasing units into it. */
  ghost function Initial(slots: nat, u: set<int>): State {
    State(Map([], slots, 0), u, {})
  }

  lemma {:induction false} InitialInv(slots: nat, u: set<int>)
    ensures Inv(Initial(slots, u), u)
  {
  }

  lemma {:induction false} Disjoint(a: set<int>, b: set<int>)
    requires a !! b
    ensures |a + b| == |a| + |b|
  {
  }

  lemma {:induction false} SizeBound(a: set<int>, u: set<int>)
    requires a <= u && Universe(u)
    ensures |a| < W
  {
    var all := Range(1, W - 1);
    RangeSize(1, W - 1);
    assert a + (all - a) == all;
    Disjoint(a, all - a);
  }

  lemma {:induction false} TakePart(free: set<int>, used: set<int>, gone: set<int>, u: set<int>, taken: set<int>, lost: set<int>)
    requires Partition(free, used, gone, u) && taken <= free && lost <= free && taken !! lost
    ensures Partition(free - taken - lost, used + taken, gone + lost, u)
  {
  }

  lemma {:induction false} GivePart(free: set<int>, used: set<int>, gone: set<int>, u: set<int>, given: set<int>, lost: set<int>)
    requires Partition(free, used, gone, u) && given <= used && lost <= given
    ensures Partition(free + given - lost, used - given, gone + lost, u)
  {
    assert used - given + given == used;
    assert free + given - lost + lost == free + given;
  }

  lemma {:induction false} CountLost(st: State, n: Map, lost: set<int>, u: set<int>)
    requires Inv(st, u) && Universe(u) && lost <= u && lost !! st.gone && |lost| < W && n.lost == Add(st.rmap.lost, |lost|)
    ensures |st.gone + lost| == n.lost
  {
    Disjoint(st.gone, lost);
    SizeBound(st.gone + lost, u);
  }

  lemma {:induction false} AfterTaking(st: State, n: Map, taken: set<int>, lost: set<int>, u: set<int>)
    requires Inv(st, u) && Universe(u) && taken <= FreeUnits(st.rmap) && lost <= FreeUnits(st.rmap) && taken !! lost
    requires Taken(st.rmap, n, taken, lost)
    ensures Inv(State(n, st.used + taken, st.gone + lost), u)
  {
    CountLost(st, n, lost, u);
    TakePart(FreeUnits(st.rmap), st.used, st.gone, u, taken, lost);
  }

  lemma {:induction false} AfterGiving(st: State, n: Map, given: set<int>, lost: set<int>, u: set<int>)
    requires Inv(st, u) && Universe(u) && given <= st.used && lost <= given
    requires Given(st.rmap, n, given, lost)
    ensures Inv(State(n, st.used - given, st.gone + lost), u)
  {
    CountLost(st, n, lost, u);
    GivePart(FreeUnits(st.rmap), st.used, st.gone, u, given, lost);
  }

  lemma {:induction false} ZeroNotFree(st: State, u: set<int>)
    requires Inv(st, u) && Universe(u)
    ensures 0 !in FreeUnits(st.rmap)
  {
    assert 0 !in u;
  }

  lemma {:induction false} AllocKeepsInv(st: State, size: Word, u: set<int>)
    requires Inv(st, u) && Universe(u) && size > 0
    ensures Inv(Step(st, Op.Alloc(size)), u)
  {
    var (n, idx) := ResourceMap.Alloc(st.rmap, size);
    ZeroNotFree(st, u);
    AllocExact(st.rmap, size);
    if idx != 0 {
      AfterTaking(st, n, Range(idx, size), {}, u);
      assert State(n, st.used + Range(idx, size), st.gone + {}) == Step(st, Op.Alloc(size));
    }
  }

  /** The reservation of a range, from the state st on. */
  ghost function Reserved(st: State, offset: Word, size: Word): State {
    var (n, ok) := ResourceMap.Reserve(st.rmap, offset, size);
    if !ok then st.(rmap := n) else State(n, st.used + Range(offset, size), st.gone + Loss(st.rmap, offset, size))
  }

  lemma {:induction false} ReservedKeepsInv(st: State, offset: Word, size: Word, u: set<int>)
    requires Inv(st, u) && Universe(u) && size > 0 && Contained(st.rmap, offset, size)
    ensures Inv(Reserved(st, offset, size), u)
  {
    var (n, ok) := ResourceMap.Reserve(st.rmap, offset, size);
    if InTop(st.rmap.entries, offset) {
      ReserveTop(st.rmap, offset, size);
    } else {
      ReserveExact(st.rmap, offset, size);
    }
    if ok {
      AfterTaking(st, n, Range(offset, size), Loss(st.rmap, offset, size), u);
    }
  }

  /** A reservation that wraps around takes units beyond the last word or makes index 0 free. */
  lemma {:induction false} ReservedBreaks(st: State, offset: Word, size: Word, u: set<int>)
    requires Inv(st, u) && Universe(u) && size > 0 && !Contained(st.rmap, offset, size)
    ensures !Inv(Reserved(st, offset, size), u)
  {
    ReserveWrapped(st.rmap, offset, size);
    var n := ResourceMap.Reserve(st.rmap, offset, size).0;
    if offset + size > W {
      assert W in Range(offset, size) && W !in u;
    } else {
      ZeroFreed(st.rmap, offset, size);
      assert 0 !in u;
    }
  }

  lemma {:induction false} ZeroFreed(m: Map, offset: Word, size: Word)
    requires Valid(m) && size > 0 && offset in FreeUnits(m) && !InTop(m.entries, offset) && offset + size == W
    ensures 0 in FreeUnits(ResourceMap.Reserve(m, offset, size).0)
  {
    var s := m.entries;
    var i := Holder(s, offset, 0);
    HolderOutside(s, offset);
    FreeFrom(s, i, offset, offset);
    var n := ResourceMap.Reserve(m, offset, size).0;
    var k := if offset != s[i].offset && |s| < m.slots then i + 1 else i;
    assert n == Cut(m, i, offset, size).0;
    assert n.entries[k].offset == 0 && n.entries[k].size > 0;
    FreeIn(n.entries, k);
    assert 0 in Units(n.entries[k]);
  }

  /** An aligned allocation is a reservation at the place found. */
  lemma {:induction false} AllocAlignReserves(st: State, size: Word, align: Word, u: set<int>)
    requires Inv(st, u) && Universe(u) && size > 0 && align > 0
    ensures var k := FirstAligned(st.rmap.entries, size, align, 0);
            Step(st, Op.AllocAlign(size, align)) == if k == |st.rmap.entries| then st else Reserved(st, Spot(st.rmap.entries[k], align), size)
  {
    var k := FirstAligned(st.rmap.entries, size, align, 0);
    if k < |st.rmap.entries| {
      ZeroNotFree(st, u);
      ZeroRefused(st.rmap, size);
    }
  }

  lemma {:induction false} ZeroRefused(m: Map, size: Word)
    requires Valid(m) && size > 0 && 0 !in FreeUnits(m)
    ensures ResourceMap.Reserve(m, 0, size) == (m, false)
  {
    assert 0 in Range(0, size) && 0 in Range(0, W - 0);
    ReserveInside(m, 0, size);
  }

  lemma {:induction false} AllocAlignExactly(st: State, size: Word, align: Word, u: set<int>)
    requires Inv(st, u) && Universe(u) && size > 0 && align > 0
    ensures Inv(Step(st, Op.AllocAlign(size, align)), u) <==> Harmless(st.rmap, Op.AllocAlign(size, align))
  {
    var k := FirstAligned(st.rmap.entries, size, align, 0);
    AllocAlignReserves(st, size, align, u);
    if k < |st.rmap.entries| {
      var idx := Spot(st.rmap.entries[k], align);
      if Contained(st.rmap, idx, size) {
        ReservedKeepsInv(st, idx, size, u);
      } else {
        ReservedBreaks(st, idx, size, u);
      }
    }
  }

  lemma {:induction false} ReserveExactly(st: State, offset: Word, size: Word, u: set<int>)
    requires Inv(st, u) && Universe(u) && size > 0
    ensures Inv(Step(st, Op.Reserve(offset, size)), u) <==> Harmless(st.rmap, Op.Reserve(offset, size))
  {
    if Contained(st.rmap, offset, size) {
      ReservedKeepsInv(st, offset, size, u);
    } else {
      ReservedBreaks(st, offset, size, u);
    }
  }

  lemma {:induction false} FreeKeepsInv(st: State, offset: Word, size: Word, u: set<int>)
    requires Inv(st, u) && Universe(u) && size > 0 && Range(offset, size) <= st.used
    ensures Inv(Step(st, Op.Free(offset, size)), u)
  {
    Within(st.used, offset, size, u);
    assert 0 !in u;
    FreeExact(st.rmap, offset, size);
    AfterGiving(st, ResourceMap.Free(st.rmap, offset, size), Range(offset, size), FreeLoss(st.rmap, offset, size), u);
  }

  /** A legal operation keeps the partition and the count of lost units exactly when it is
      harmless. */
  lemma {:induction false} StepKeepsInv(st: State, op: Op, u: set<int>)
    requires Inv(st, u) && Universe(u) && Legal(st, op)
    ensures Inv(Step(st, op), u) <==> Harmless(st.rmap, op)
  {
    match op
    case Alloc(size) => AllocKeepsInv(st, size, u);
    case AllocAlign(size, align) => AllocAlignExactly(st, size, align, u);
    case Free(offset, size) => FreeKeepsInv(st, offset, size, u);
    case Reserve(offset, size) => ReserveExactly(st, offset, size, u);
  }

  /** Safe operations are harmless. So is every aligned allocation that leaves room for a
      gap, and every operation on a run that reaches the last word. */
  lemma {:induction false} SafeHarmless(m: Map, op: Op)
    requires Valid(m) && op.size > 0 && 0 !in FreeUnits(m) && (op.AllocAlign? ==> op.align > 0)
    ensures op.Reserve? && ReserveSafe(m, op.offset, op.size) ==> Harmless(m, op)
    ensures op.AllocAlign? && (AlignSafe(m, op.size, op.align) || op.size + op.align <= W) ==> Harmless(m, op)
  {
    if op.AllocAlign? {
      var k := FirstAligned(m.entries, op.size, op.align, 0);
      if k < |m.entries| && op.size + op.align <= W {
        FirstAlignedExact(m.entries, op.size, op.align, 0);
        AlignedFree(m, k, op.size, op.align);
      }
    }
  }

  lemma {:induction false} Within(used: set<int>, offset: Word, size: Word, u: set<int>)
    requires Universe(u) && used <= u && Range(offset, size) <= used && size > 0
    ensures offset + size <= W
  {
    assert offset + size - 1 in Range(offset, size);
  }

  ghost predicate AllLegal(st: State, ops: seq<Op>)
    decreases |ops|
  {
    ops == [] || (Legal(st, ops[0]) && Harmless(st.rmap, ops[0]) && AllLegal(Step(st, ops[0]), ops[1..]))
  }

  ghost function Run(st: State, ops: seq<Op>): State
    requires AllLegal(st, ops)
    decreases |ops|
  {
    if ops == [] then st else Run(Step(st, ops[0]), ops[1..])
  }

  lemma {:induction false} RunKeepsInv(st: State, ops: seq<Op>, u: set<int>)
    requires Inv(st, u) && Universe(u) && AllLegal(st, ops)
    ensures Inv(Run(st, ops), u)
    decreases |ops|
  {
    if ops != [] {
      StepKeepsInv(st, ops[0], u);
      RunKeepsInv(Step(st, ops[0]), ops[1..], u);
    }
  }

  ghost function Total(s: seq<Entry>): nat {
    if s == [] then 0 else s[0].size + Total(s[1..])
  }

  lemma {:induction false} TotalExact(s: seq<Entry>)
    requires Good(s)
    ensures Total(s) == |FreeSet(s)|
  {
    if s != [] {
      Dropped(s, 0, 1);
      assert s[..0] + s[1..] == s[1..];
      TotalExact(s[1..]);
      Around(s, 0);
      assert s[..0] == [] && s[0 + 1..] == s[1..];
      RangeSize(s[0].offset, s[0].size);
      Disjoint(Units(s[0]), FreeSet(s[1..]));
    }
  }

  /** Over every run the sizes of the free runs, the units in use and the count of lost
      units add up to all units there are. */
  lemma {:induction false} Conservation(slots: nat, u: set<int>, ops: seq<Op>)
    requires Universe(u) && AllLegal(Initial(slots, u), ops)
    ensures var st := Run(Initial(slots, u), ops);
            Valid(st.rmap) && Total(st.rmap.entries) + |st.used| + st.rmap.lost == |u|
  {
    InitialInv(slots, u);
    RunKeepsInv(Initial(slots, u), ops, u);
    var st := Run(Initial(slots, u), ops);
    var free := FreeUnits(st.rmap);
    TotalExact(st.rmap.entries);
    Disjoint(free, st.used);
    Disjoint(free + st.used, st.gone);
  }
}
