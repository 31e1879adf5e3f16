/**
 What a resource map denotes: the set of free units, and what each operation does to it.
 */
module ResourceSets {
  import opened MachineWords
  import opened ResourceMap

  /** The units from offset on. */
  ghost function Range(offset: int, size: int): set<int> {
    set x {:trigger Inside(x, offset, size)} | offset <= x < offset + size
  }

  ghost predicate Inside(x: int, offset: int, size: int) {
    offset <= x < offset + size
  }

  lemma {:induction false} RangeSize(offset: int, size: nat)
    ensures |Range(offset, size)| == size
  {
    if size == 0 {
      assert Range(offset, 0) == {};
    } else {
      RangeSize(offset, size - 1);
      assert Range(offset, size) == Range(offset, size - 1) + {offset + size - 1};
    }
  }

  ghost function Units(e: Entry): set<int> {
    Range(e.offset, e.size)
  }

  ghost function FreeSet(s: seq<Entry>): set<int> {
    if s == [] then {} else Units(s[0]) + FreeSet(s[1..])
  }

  ghost predicate Below(e: Entry, f: Entry) {
    e.offset + e.size < f.offset
  }

  ghost predicate Fits(e: Entry) {
    e.size > 0 && e.offset + e.size <= W
  }

  /** Entries are non-empty, in ascending order and no two of them abut. */
  ghost predicate Good(s: seq<Entry>) {
    && (forall i :: 0 <= i < |s| ==> Fits(s[i]))
    && (forall i, j {:trigger Below(s[i], s[j])} :: 0 <= i < j < |s| ==> Below(s[i], s[j]))
  }

  /** The free units above the run at i. */
  ghost function Above(s: seq<Entry>, i: nat): set<int>
    requires i < |s|
  {
    FreeSet(s[i + 1..])
  }

  lemma {:induction false} FreeSetJoin(a: seq<Entry>, b: seq<Entry>)
    ensures FreeSet(a + b) == FreeSet(a) + FreeSet(b)
  {
    if a == [] {
      assert a + b == b;
    } else {
      assert (a + b)[1..] == a[1..] + b;
      FreeSetJoin(a[1..], b);
    }
  }

  lemma {:induction false} FreeSetOne(e: Entry)
    ensures FreeSet([e]) == Units(e)
  {
    assert [e][1..] == [];
  }

  lemma {:induction false} FreeIn(s: seq<Entry>, i: nat)
    requires i < |s|
    ensures Units(s[i]) <= FreeSet(s)
  {
    if i > 0 {
      FreeIn(s[1..], i - 1);
    }
  }

  lemma {:induction false} FreeAt(s: seq<Entry>, x: int) returns (i: nat)
    requires x in FreeSet(s)
    ensures i < |s| && x in Units(s[i])
  {
    if x in Units(s[0]) {
      i := 0;
    } else {
      i := FreeAt(s[1..], x);
      i := i + 1;
    }
  }

  /** Everything else is apart from the run at i. */
  lemma {:induction false} Around(s: seq<Entry>, i: nat)
    requires i < |s| && Good(s)
    ensures FreeSet(s) == FreeSet(s[..i]) + Units(s[i]) + Above(s, i)
    ensures forall x :: x in FreeSet(s[..i]) ==> x + 1 < s[i].offset
    ensures forall x :: x in Above(s, i) ==> s[i].offset + s[i].size < x
  {
    assert s == s[..i] + ([s[i]] + s[i + 1..]);
    FreeSetJoin(s[..i], [s[i]] + s[i + 1..]);
    FreeSetJoin([s[i]], s[i + 1..]);
    FreeSetOne(s[i]);
    forall x | x in FreeSet(s[..i]) ensures x + 1 < s[i].offset {
      var k := FreeAt(s[..i], x);
      assert Below(s[k], s[i]);
    }
    forall x | x in Above(s, i) ensures s[i].offset + s[i].size < x {
      var k := FreeAt(s[i + 1..], x);
      assert Below(s[i], s[i + 1 + k]);
    }
  }

  /** Replacing the run at i by the runs of t. */
  lemma {:induction false} Replaced(s: seq<Entry>, i: nat, t: seq<Entry>)
    requires i < |s|
    ensures FreeSet(s[..i] + t + s[i + 1..]) == FreeSet(s[..i]) + FreeSet(t) + Above(s, i)
  {
    FreeSetJoin(s[..i] + t, s[i + 1..]);
    FreeSetJoin(s[..i], t);
  }

  /** Runs inside the run at i may take its place. */
  lemma {:induction false} ReplacedGood(s: seq<Entry>, i: nat, t: seq<Entry>)
    requires i < |s| && Good(s) && Good(t)
    requires forall k :: 0 <= k < |t| ==> s[i].offset <= t[k].offset && t[k].offset + t[k].size <= s[i].offset + s[i].size
    ensures Good(s[..i] + t + s[i + 1..])
  {
    var r := s[..i] + t + s[i + 1..];
    forall p, q | 0 <= p < q < |r| ensures Below(r[p], r[q]) {
      var p', q' := Origin(s, i, t, p), Origin(s, i, t, q);
      if i <= p < i + |t| && i <= q < i + |t| {
        assert Below(t[p - i], t[q - i]);
      } else {
        assert Below(s[p'], s[q']);
      }
    }
  }

  /** Where the entry at p of the replaced sequence lay in the old one. */
  ghost function Origin(s: seq<Entry>, i: nat, t: seq<Entry>, p: nat): (k: nat)
    requires i < |s| && p < |s| - 1 + |t|
    ensures k < |s| && (s[..i] + t + s[i + 1..])[p] == if i <= p < i + |t| then t[p - i] else s[k]
    ensures k == i <==> i <= p < i + |t|
  {
    if p < i then p else if p < i + |t| then i else p - |t| + 1
  }

  // ---------- ranges of free units ----------

  /** A range is free exactly when one run holds all of it. */
  lemma {:induction false} RangeFree(s: seq<Entry>, i: nat, offset: int, size: int)
    requires Good(s) && i < |s| && size > 0 && s[i].offset <= offset < s[i].offset + s[i].size
    ensures Range(offset, size) <= FreeSet(s) <==> offset + size <= s[i].offset + s[i].size
  {
    Around(s, i);
    var top := s[i].offset + s[i].size;
    if offset + size <= top {
      assert Range(offset, size) <= Units(s[i]);
    } else {
      assert top in Range(offset, size);
      assert top !in FreeSet(s);
    }
  }

  /** What the search passes by: a run below the offset, and any run that reaches the last
      word, whose top wraps around to 0. */
  ghost predicate Passed(e: Entry, offset: int) {
    e.offset <= offset && (e.offset + e.size <= offset || e.offset + e.size == W)
  }

  lemma {:induction false} HolderExact(s: seq<Entry>, offset: Word, i: nat)
    requires Good(s) && i <= |s|
    requires forall k :: 0 <= k < i ==> Passed(s[k], offset)
    ensures var k := Holder(s, offset, i);
            && (forall j :: 0 <= j < k ==> Passed(s[j], offset))
            && (k < |s| ==> offset < s[k].offset + s[k].size && (s[k].offset <= offset ==> s[k].offset + s[k].size < W))
    decreases |s| - i
  {
    if i < |s| {
      assert Fits(s[i]);
      if s[i].offset <= offset && s[i].Top() <= offset {
        HolderExact(s, offset, i + 1);
      }
    }
  }

  /** All units from the offset to the last word are free. */
  ghost predicate InTop(s: seq<Entry>, offset: int) {
    Range(offset, W - offset) <= FreeSet(s)
  }

  /** The run that reaches the last word is the last one. */
  lemma {:induction false} TopIsLast(s: seq<Entry>, i: nat)
    requires Good(s) && i < |s| && s[i].offset + s[i].size == W
    ensures i == |s| - 1
  {
    assert i + 1 < |s| ==> Fits(s[i + 1]) && Below(s[i], s[i + 1]);
  }

  /** The run that holds the offset reaches the last word exactly when all units from there
      on are free. */
  lemma {:induction false} InTopRun(s: seq<Entry>, i: nat, offset: Word)
    requires Good(s) && i < |s| && s[i].offset <= offset < s[i].offset + s[i].size
    ensures InTop(s, offset) <==> s[i].offset + s[i].size == W
  {
    assert Fits(s[i]);
    RangeFree(s, i, offset, W - offset);
  }

  /** An offset in a run that reaches the last word is not found. */
  lemma {:induction false} HolderInTop(s: seq<Entry>, offset: Word)
    requires Good(s) && InTop(s, offset)
    ensures Holder(s, offset, 0) == |s|
  {
    assert offset in Range(offset, W - offset);
    var i := FreeAt(s, offset);
    InTopRun(s, i, offset);
    TopIsLast(s, i);
    var k := Holder(s, offset, 0);
    HolderExact(s, offset, 0);
    assert k < i ==> Below(s[k], s[i]);
  }

  /** For any other offset the runs passed by are below it. */
  lemma {:induction false} HolderOutside(s: seq<Entry>, offset: Word)
    requires Good(s) && !InTop(s, offset)
    ensures var k := Holder(s, offset, 0);
            && (forall j :: 0 <= j < k ==> s[j].offset + s[j].size <= offset)
            && (k < |s| ==> offset < s[k].offset + s[k].size && (s[k].offset <= offset ==> s[k].offset + s[k].size < W))
  {
    var k := Holder(s, offset, 0);
    HolderExact(s, offset, 0);
    forall j | 0 <= j < k ensures s[j].offset + s[j].size <= offset {
      assert Passed(s[j], offset);
      if s[j].offset + s[j].size > offset {
        InTopRun(s, j, offset);
      }
    }
  }

  /** Below the run found there is no free unit from the offset on. */
  lemma {:induction false} FreeFrom(s: seq<Entry>, k: nat, offset: int, x: int)
    requires Good(s) && k <= |s| && x in FreeSet(s) && x >= offset
    requires forall j :: 0 <= j < k ==> s[j].offset + s[j].size <= offset
    ensures k < |s| && s[k].offset <= x
  {
    var i := FreeAt(s, x);
    if k < i {
      assert Below(s[k], s[i]);
    }
  }

  // ---------- what operations do ----------

  ghost predicate Valid(m: Map) {
    Good(m.entries) && |m.entries| <= m.slots
  }

  ghost function FreeUnits(m: Map): set<int> {
    FreeSet(m.entries)
  }

  /** A reservation out of the middle of a run needs one more slot. Without it the units
      below the range are given up. */
  ghost function Loss(m: Map, offset: int, size: int): set<int> {
    if |m.entries| < m.slots then {} else set x | x in FreeUnits(m) && x < offset && Range(x, offset + size + 1 - x) <= FreeUnits(m)
  }

  ghost predicate Taken(m: Map, n: Map, taken: set<int>, lost: set<int>) {
    && Valid(n) && n.slots == m.slots
    && FreeUnits(n) == FreeUnits(m) - taken - lost
    && |lost| < W && n.lost == Add(m.lost, |lost|)
  }

  /** The lowest free range of the size. */
  ghost predicate Lowest(m: Map, size: int, idx: int) {
    Range(idx, size) <= FreeUnits(m) && forall x :: Range(x, size) <= FreeUnits(m) ==> idx <= x
  }

  /** The lowest free range of the size that starts at a multiple of align. */
  ghost predicate LowestAligned(m: Map, size: int, align: int, idx: int)
    requires align > 0
  {
    && Range(idx, size) <= FreeUnits(m) && idx % align == 0
    && forall x :: x % align == 0 && Range(x, size) <= FreeUnits(m) ==> idx <= x
  }
}
