/**
 The operations of a resource map as operations on the set of free units.
 */
module ResourceOperations {
  import opened MachineWords
  import opened Arithmetic
  import opened ResourceMap
  import opened ResourceSets

  /** Replacing the run at i by what remains of it. */
  lemma {:induction false} Shrunk(m: Map, n: Map, i: nat, t: seq<Entry>, taken: set<int>, lost: set<int>)
    requires Valid(m) && i < |m.entries| && Good(t)
    requires forall k :: 0 <= k < |t| ==> m.entries[i].offset <= t[k].offset && t[k].offset + t[k].size <= m.entries[i].offset + m.entries[i].size
    requires FreeSet(t) == Units(m.entries[i]) - taken - lost && taken + lost <= Units(m.entries[i])
    requires n.entries == m.entries[..i] + t + m.entries[i + 1..]
    requires n.slots == m.slots && |n.entries| <= n.slots && |lost| < W && n.lost == Add(m.lost, |lost|)
    ensures Taken(m, n, taken, lost)
  {
    ReplacedGood(m.entries, i, t);
    Replaced(m.entries, i, t);
    Around(m.entries, i);
  }

  lemma {:induction false} Pair(e: Entry, f: Entry)
    requires Fits(e) && Fits(f) && Below(e, f)
    ensures Good([e, f]) && FreeSet([e, f]) == Units(e) + Units(f)
  {
    FreeSetOne(e);
    FreeSetOne(f);
    assert [e, f] == [e] + [f];
    FreeSetJoin([e], [f]);
  }

  lemma {:induction false} SameRun(s: seq<Entry>, k: nat, i: nat, x: int, y: int)
    requires Good(s) && k < |s| && i < |s| && x in Units(s[k]) && y in Units(s[i]) && x <= y
    ensures k <= i
    ensures k < i ==> s[k].offset + s[k].size < s[i].offset
  {
    assert k < i ==> Below(s[k], s[i]);
    assert i < k ==> Below(s[i], s[k]);
  }

  /** A unit below the range is lost exactly when its run is the one that holds the range
      and goes on beyond it. */
  lemma {:induction false} LossAt(m: Map, i: nat, offset: int, size: int, x: int)
    requires Valid(m) && i < |m.entries| && size > 0 && x in FreeUnits(m) && x < offset
    requires m.entries[i].offset <= offset && offset + size <= m.entries[i].offset + m.entries[i].size
    ensures Range(x, offset + size + 1 - x) <= FreeUnits(m)
            <==> m.entries[i].offset <= x && offset + size < m.entries[i].offset + m.entries[i].size
  {
    var k := FreeAt(m.entries, x);
    SameRun(m.entries, k, i, x, offset);
    RangeFree(m.entries, k, x, offset + size + 1 - x);
  }

  /** What the units below the range are, when the run at i holds the range. */
  lemma {:induction false} LossExact(m: Map, i: nat, offset: int, size: int)
    requires Valid(m) && i < |m.entries| && size > 0
    requires m.entries[i].offset <= offset && offset + size <= m.entries[i].offset + m.entries[i].size
    ensures var e := m.entries[i];
            Loss(m, offset, size) ==
              if |m.entries| == m.slots && offset + size < e.offset + e.size then Range(e.offset, offset - e.offset) else {}
  {
    var e := m.entries[i];
    var below := if |m.entries| == m.slots && offset + size < e.offset + e.size then Range(e.offset, offset - e.offset) else {};
    forall x | x in Loss(m, offset, size) ensures x in below {
      LossAt(m, i, offset, size, x);
    }
    FreeIn(m.entries, i);
    forall x | x in below ensures x in Loss(m, offset, size) {
      assert x in Units(e);
      LossAt(m, i, offset, size, x);
    }
  }

  lemma {:induction false} CutExact(m: Map, i: nat, offset: Word, size: Word)
    requires Valid(m) && i < |m.entries| && size > 0
    requires m.entries[i].offset <= offset && offset + size <= m.entries[i].offset + m.entries[i].size < W
    ensures var (n, ok) := Cut(m, i, offset, size); ok && Taken(m, n, Range(offset, size), Loss(m, offset, size))
  {
    var e := m.entries[i];
    assert Fits(e);
    var (n, ok) := Cut(m, i, offset, size);
    LossExact(m, i, offset, size);
    if offset == e.offset && size == e.size {
      CutAll(m, n, i);
    } else if offset == e.offset {
      CutBelow(m, n, i, size);
    } else if offset + size == e.offset + e.size {
      CutAbove(m, n, i, offset, size);
    } else if |m.entries| == m.slots {
      SplitFull(m, n, i, offset, size);
    } else {
      SplitRoom(m, n, i, offset, size);
    }
  }

  lemma {:induction false} CutAll(m: Map, n: Map, i: nat)
    requires Valid(m) && i < |m.entries| && n == m.(entries := Delete(m.entries, i))
    ensures Taken(m, n, Units(m.entries[i]), {})
  {
    Shrunk(m, n, i, [], Units(m.entries[i]), {});
  }

  lemma {:induction false} CutBelow(m: Map, n: Map, i: nat, size: Word)
    requires Valid(m) && i < |m.entries| && 0 < size < m.entries[i].size
    requires var e := m.entries[i];
             e.offset + size < W && n == m.(entries := m.entries[i := Entry(e.offset + size, e.size - size)])
    ensures Taken(m, n, Range(m.entries[i].offset, size), {})
  {
    var s := m.entries;
    var e, above := s[i], n.entries[i];
    FreeSetOne(above);
    assert n.entries == s[..i] + [above] + s[i + 1..];
    assert Fits(e);
    Shrunk(m, n, i, [above], Range(e.offset, size), {});
  }

  lemma {:induction false} CutAbove(m: Map, n: Map, i: nat, offset: Word, size: Word)
    requires Valid(m) && i < |m.entries| && size > 0
    requires var e := m.entries[i];
             && e.offset < offset && offset + size == e.offset + e.size
             && n == m.(entries := m.entries[i := Entry(e.offset, offset - e.offset)])
    ensures Taken(m, n, Range(offset, size), {})
  {
    var s := m.entries;
    var below := n.entries[i];
    FreeSetOne(below);
    assert n.entries == s[..i] + [below] + s[i + 1..];
    assert Fits(s[i]);
    Shrunk(m, n, i, [below], Range(offset, size), {});
  }

  lemma {:induction false} SplitFull(m: Map, n: Map, i: nat, offset: Word, size: Word)
    requires Valid(m) && i < |m.entries| && size > 0
    requires var e := m.entries[i];
             && e.offset < offset && offset + size < e.offset + e.size < W
             && n == Map(m.entries[i := Entry(offset + size, e.offset + e.size - offset - size)], m.slots, Add(m.lost, offset - e.offset))
    ensures Taken(m, n, Range(offset, size), Range(m.entries[i].offset, offset - m.entries[i].offset))
  {
    var s := m.entries;
    var e, above := s[i], n.entries[i];
    FreeSetOne(above);
    RangeSize(e.offset, offset - e.offset);
    assert n.entries == s[..i] + [above] + s[i + 1..];
    Shrunk(m, n, i, [above], Range(offset, size), Range(e.offset, offset - e.offset));
  }

  lemma {:induction false} SplitRoom(m: Map, n: Map, i: nat, offset: Word, size: Word)
    requires Valid(m) && i < |m.entries| < m.slots && size > 0
    requires var e := m.entries[i];
             && e.offset < offset && offset + size < e.offset + e.size < W
             && n == m.(entries := Insert(m.entries[i := Entry(offset + size, e.offset + e.size - offset - size)], i, Entry(e.offset, offset - e.offset)))
    ensures Taken(m, n, Range(offset, size), {})
  {
    var s := m.entries;
    var e := s[i];
    var below, above := Entry(e.offset, offset - e.offset), Entry(offset + size, e.offset + e.size - offset - size);
    Pair(below, above);
    assert n.entries == s[..i] + [below, above] + s[i + 1..];
    Shrunk(m, n, i, [below, above], Range(offset, size), {});
  }

  /** What a reservation is for: it succeeds exactly when the whole range is free, takes the
      range then, and changes nothing otherwise. */
  ghost predicate ReserveMeets(m: Map, offset: Word, size: Word) {
    var (n, ok) := Reserve(m, offset, size);
    && (ok <==> Range(offset, size) <= FreeUnits(m))
    && (ok ==> Taken(m, n, Range(offset, size), Loss(m, offset, size)))
    && (!ok ==> n == m)
  }

  /** A range in a run that reaches the last word is not free, because it goes beyond. Any
      other range does not reach the last word, or its first unit is not free. */
  ghost predicate ReserveSafe(m: Map, offset: Word, size: Word) {
    if InTop(m.entries, offset) then offset + size > W else offset + size < W || offset !in FreeUnits(m)
  }

  lemma {:induction false} ReserveInside(m: Map, offset: Word, size: Word)
    requires Valid(m) && size > 0 && offset + size < W && !InTop(m.entries, offset)
    ensures ReserveMeets(m, offset, size)
  {
    var s := m.entries;
    var i := Holder(s, offset, 0);
    HolderOutside(s, offset);
    if i == |s| || s[i].offset > offset {
      assert offset in Range(offset, size);
      if offset in FreeUnits(m) {
        FreeFrom(s, i, offset, offset);
      }
    } else {
      RangeFree(s, i, offset, size);
      if offset + size <= s[i].offset + s[i].size {
        CutExact(m, i, offset, size);
      }
    }
  }

  lemma {:induction false} FreeBelow(m: Map, x: int)
    requires Valid(m) && x in FreeUnits(m)
    ensures 0 <= x < W
  {
    var i := FreeAt(m.entries, x);
    assert Fits(m.entries[i]);
  }

  /** Nothing beyond the last word is free. */
  lemma {:induction false} FreeBound(m: Map, offset: int, size: int)
    requires Valid(m) && offset < W < offset + size
    ensures !(Range(offset, size) <= FreeUnits(m))
  {
    assert W in Range(offset, size);
    if W in FreeUnits(m) {
      FreeBelow(m, W);
    }
  }

  /** Nothing is reserved out of a run that reaches the last word. */
  lemma {:induction false} ReserveTop(m: Map, offset: Word, size: Word)
    requires Valid(m) && size > 0 && InTop(m.entries, offset)
    ensures Reserve(m, offset, size) == (m, false) && (Range(offset, size) <= FreeUnits(m) <==> offset + size <= W)
  {
    HolderInTop(m.entries, offset);
    if offset + size <= W {
      assert Range(offset, size) <= Range(offset, W - offset);
    } else {
      FreeBound(m, offset, size);
    }
  }

  /** The end of a range that wraps around is always below the top of the run that holds
      its start. */
  lemma {:induction false} ReserveWrapped(m: Map, offset: Word, size: Word)
    requires Valid(m) && size > 0 && offset + size >= W && !InTop(m.entries, offset)
    ensures Reserve(m, offset, size).1 <==> offset in FreeUnits(m)
    ensures !Reserve(m, offset, size).1 ==> Reserve(m, offset, size).0 == m
    ensures !(Range(offset, size) <= FreeUnits(m))
  {
    var s := m.entries;
    var i := Holder(s, offset, 0);
    HolderOutside(s, offset);
    if i < |s| && s[i].offset <= offset {
      FreeIn(s, i);
      assert offset in Units(s[i]);
    } else if offset in FreeUnits(m) {
      FreeFrom(s, i, offset, offset);
    }
    assert Range(offset, W - offset) <= Range(offset, size);
  }

  /** A reservation does what it is for exactly when it is safe. */
  lemma {:induction false} ReserveExact(m: Map, offset: Word, size: Word)
    requires Valid(m) && size > 0
    ensures ReserveMeets(m, offset, size) <==> ReserveSafe(m, offset, size)
  {
    if InTop(m.entries, offset) {
      ReserveTop(m, offset, size);
    } else if offset + size < W {
      ReserveInside(m, offset, size);
    } else {
      ReserveWrapped(m, offset, size);
    }
  }

  /** A range that wraps around is reserved although it is not free, and the list is no
      longer in order. */
  lemma {:induction false} ReserveWraps()
    ensures var m := Map([Entry(5, 20)], 4, 0);
            var (n, ok) := Reserve(m, 8, 0xFFFF_FFFF);
            Valid(m) && ok && !(Range(8, 0xFFFF_FFFF) <= FreeUnits(m)) && !Valid(n)
  {
    var m := Map([Entry(5, 20)], 4, 0);
    assert Holder(m.entries, 8, 0) == 0;
    var (n, ok) := Reserve(m, 8, 0xFFFF_FFFF);
    assert n.entries == [Entry(5, 3), Entry(7, 18)];
    assert !Below(n.entries[0], n.entries[1]);
    FreeBound(m, 8, 0xFFFF_FFFF);
  }

  /** What the status of a range says: 1 that none of it is free, 0 that it is free and so
      is the unit after it, -1 anything else. */
  ghost predicate StatusMeets(m: Map, offset: Word, size: Word) {
    && (Status(m, offset, size) == 1 <==> Range(offset, size) !! FreeUnits(m))
    && (Status(m, offset, size) == 0 <==> Range(offset, size + 1) <= FreeUnits(m))
    && Status(m, offset, size) in {-1, 0, 1}
  }

  /** The first free unit from the offset on, if there is any, is in the run found. */
  lemma {:induction false} StatusRun(m: Map, offset: Word, i: nat)
    requires Valid(m) && i == Holder(m.entries, offset, 0) && !InTop(m.entries, offset)
    ensures forall x :: x in FreeUnits(m) && x >= offset ==> i < |m.entries| && m.entries[i].offset <= x
    ensures i < |m.entries| ==> Fits(m.entries[i]) && offset < m.entries[i].offset + m.entries[i].size
    ensures i < |m.entries| && m.entries[i].offset <= offset ==> m.entries[i].offset + m.entries[i].size < W
  {
    var s := m.entries;
    HolderOutside(s, offset);
    forall x | x in FreeUnits(m) && x >= offset ensures i < |s| && s[i].offset <= x {
      FreeFrom(s, i, offset, x);
    }
    if i < |s| {
      assert Fits(s[i]);
    }
  }

  lemma {:induction false} StatusInside(m: Map, offset: Word, size: Word)
    requires Valid(m) && size > 0 && offset + size < W && !InTop(m.entries, offset)
    ensures StatusMeets(m, offset, size)
  {
    var s := m.entries;
    var i := Holder(s, offset, 0);
    StatusRun(m, offset, i);
    assert offset in Range(offset, size) && offset in Range(offset, size + 1);
    if i < |s| {
      FreeIn(s, i);
      if s[i].offset > offset {
        assert s[i].offset in Units(s[i]);
        assert s[i].offset < offset + size ==> s[i].offset in Range(offset, size);
      } else {
        assert offset in Units(s[i]);
        RangeFree(s, i, offset, size + 1);
      }
    }
  }

  /** A range that wraps around and has free units is reported as allocated or as free. */
  lemma {:induction false} StatusWrapped(m: Map, offset: Word, size: Word)
    requires Valid(m) && size > 0 && offset + size >= W && !InTop(m.entries, offset)
    ensures StatusMeets(m, offset, size) <==> Range(offset, size) !! FreeUnits(m)
  {
    var s := m.entries;
    var i := Holder(s, offset, 0);
    StatusRun(m, offset, i);
    FreeBound(m, offset, size + 1);
    if i < |s| {
      FreeIn(s, i);
      var x: int := if s[i].offset > offset then s[i].offset else offset;
      assert x in Units(s[i]) && x in Range(offset, size);
    }
  }

  /** The status of a range is right exactly when none of the range is free, or it does not
      reach the last word and does not start in a run that does. */
  lemma {:induction false} StatusExact(m: Map, offset: Word, size: Word)
    requires Valid(m) && size > 0
    ensures StatusMeets(m, offset, size) <==>
      Range(offset, size) !! FreeUnits(m) || (offset + size < W && !InTop(m.entries, offset))
  {
    if InTop(m.entries, offset) {
      HolderInTop(m.entries, offset);
      assert offset in Range(offset, size) && offset in Range(offset, W - offset);
    } else if offset + size < W {
      StatusInside(m, offset, size);
    } else {
      StatusWrapped(m, offset, size);
    }
  }

  /** A range that is free up to the end of its run is reported as partly allocated. */
  lemma {:induction false} StatusAtTop()
    ensures var m := Map([Entry(10, 5)], 4, 0);
            Valid(m) && Range(12, 3) <= FreeUnits(m) && Status(m, 12, 3) == -1
  {
    var m := Map([Entry(10, 5)], 4, 0);
    FreeSetOne(Entry(10, 5));
    assert Holder(m.entries, 12, 0) == 0;
  }

  // ---------- allocation ----------

  lemma {:induction false} FirstFitExact(s: seq<Entry>, size: Word, i: nat)
    requires i <= |s| && forall k :: 0 <= k < i ==> s[k].size < size
    ensures var k := FirstFit(s, size, i);
            (forall j :: 0 <= j < k ==> s[j].size < size) && (k < |s| ==> s[k].size >= size)
    decreases |s| - i
  {
    if i < |s| && s[i].size < size {
      FirstFitExact(s, size, i + 1);
    }
  }

  /** Free ranges of this size start in the run at k or above. */
  ghost predicate NoneBefore(m: Map, size: int, k: nat, x: int) {
    Range(x, size) <= FreeUnits(m) ==> k < |m.entries| && m.entries[k].offset <= x
  }

  lemma {:induction false} NoFitBefore(m: Map, size: int, k: nat, x: int)
    requires Valid(m) && size > 0 && k <= |m.entries|
    requires forall j :: 0 <= j < k ==> m.entries[j].size < size
    ensures NoneBefore(m, size, k, x)
  {
    if Range(x, size) <= FreeUnits(m) {
      assert x in Range(x, size);
      var i := FreeAt(m.entries, x);
      RangeFree(m.entries, i, x, size);
      if k < i {
        assert Below(m.entries[k], m.entries[i]);
      }
    }
  }

  /** First fit: the lowest free range of the size, or failure when there is none. */
  lemma {:induction false} AllocExact(m: Map, size: Word)
    requires Valid(m) && size > 0 && 0 !in FreeUnits(m)
    ensures var (n, idx) := Alloc(m, size);
            && (idx == 0 ==> n == m && forall x :: !(Range(x, size) <= FreeUnits(m)))
            && (idx != 0 ==> Lowest(m, size, idx) && Taken(m, n, Range(idx, size), {}))
  {
    var s := m.entries;
    var k := FirstFit(s, size, 0);
    FirstFitExact(s, size, 0);
    forall x | Range(x, size) <= FreeUnits(m) ensures k < |s| && s[k].offset <= x {
      NoFitBefore(m, size, k, x);
    }
    if k < |s| {
      var e := s[k];
      assert Fits(e);
      RangeFree(s, k, e.offset, size);
      assert e.offset in Units(e);
      FreeIn(s, k);
      if e.size > size {
        CutBelow(m, Take(m, k, size), k, size);
      } else {
        CutAll(m, Take(m, k, size), k);
      }
    }
  }

  // ---------- aligned allocation ----------

  /** The gap leads to the next multiple. */
  lemma {:induction false} GapExact(offset: Word, align: Word)
    requires align > 0
    ensures (offset + Gap(offset, align)) % align == 0 && Gap(offset, align) < align
  {
    var q := offset / align;
    if offset % align != 0 {
      assert (q + 1) * align == q * align + align;
      ModUnique(offset + Gap(offset, align), align, q + 1, 0);
    }
  }

  /** No multiple lies in the gap. */
  lemma {:induction false} GapLeast(offset: Word, align: Word, x: int)
    requires align > 0 && x >= offset && x % align == 0
    ensures x >= offset + Gap(offset, align)
  {
    if offset % align != 0 {
      NextMultiple(offset / align, offset % align, x / align, align);
    }
  }

  lemma {:induction false} NextMultiple(q: int, r: int, p: int, align: int)
    requires align > 0 && 0 < r && p * align >= q * align + r
    ensures p * align >= q * align + align
  {
    if p <= q {
      MulLe(p, q, align);
      assert false;
    }
    MulLe(q + 1, p, align);
  }

  /** What an aligned allocation is for: the lowest aligned free range of the size, or
      failure when there is none. */
  ghost predicate AlignMeets(m: Map, size: Word, align: Word)
    requires align > 0
  {
    var (n, idx) := AllocAlign(m, size, align);
    && (idx == 0 ==> n == m && forall x :: x % align == 0 ==> !(Range(x, size) <= FreeUnits(m)))
    && (idx != 0 ==> LowestAligned(m, size, align, idx) && Taken(m, n, Range(idx, size), Loss(m, idx, size)))
  }

  /** Either no run is found, or the place in the run found is one where the reservation
      does the right thing. A request that leaves room for a gap has to be met there, so the
      run must not reach the last word. Any other request has to be refused there. */
  ghost predicate AlignSafe(m: Map, size: Word, align: Word)
    requires align > 0
  {
    var k := FirstAligned(m.entries, size, align, 0);
    k < |m.entries| ==>
      var idx := Spot(m.entries[k], align);
      if size + align <= W then !InTop(m.entries, idx)
      else InTop(m.entries, idx) || idx !in FreeUnits(m) || idx + size < W
  }

  /** The first multiple in a run or beyond it, and where that is in 32 bits. */
  ghost function Multiple(e: Entry, align: Word): int
    requires align > 0
  {
    e.offset + Gap(e.offset, align)
  }

  function Spot(e: Entry, align: Word): Word
    requires align > 0
  {
    Add(e.offset, Gap(e.offset, align))
  }

  // A request that leaves room for a gap: the sum of size and gap does not wrap around.

  lemma {:induction false} SumFits(offset: Word, size: Word, align: Word)
    requires align > 0 && size + align <= W
    ensures Add(size, Gap(offset, align)) == size + Gap(offset, align)
  {
    GapExact(offset, align);
  }

  lemma {:induction false} FirstAlignedExact(s: seq<Entry>, size: Word, align: Word, i: nat)
    requires i <= |s| && align > 0 && size + align <= W
    requires forall j :: 0 <= j < i ==> s[j].size < size + Gap(s[j].offset, align)
    ensures var k := FirstAligned(s, size, align, i);
            && (forall j :: 0 <= j < k ==> s[j].size < size + Gap(s[j].offset, align))
            && (k < |s| ==> s[k].size >= size + Gap(s[k].offset, align))
    decreases |s| - i
  {
    if i < |s| {
      SumFits(s[i].offset, size, align);
      if s[i].size < size + Gap(s[i].offset, align) {
        FirstAlignedExact(s, size, align, i + 1);
      }
    }
  }

  lemma {:induction false} NoRoomBefore(m: Map, size: Word, align: Word, k: nat, x: int)
    requires Valid(m) && size > 0 && align > 0 && k <= |m.entries|
    requires forall j :: 0 <= j < k ==> m.entries[j].size < size + Gap(m.entries[j].offset, align)
    requires x % align == 0 && Range(x, size) <= FreeUnits(m)
    ensures k < |m.entries| && Multiple(m.entries[k], align) <= x
  {
    assert x in Range(x, size);
    var i := FreeAt(m.entries, x);
    RangeFree(m.entries, i, x, size);
    GapLeast(m.entries[i].offset, align, x);
    if k < i {
      assert Below(m.entries[k], m.entries[i]);
      GapLeast(m.entries[k].offset, align, x);
    }
  }

  /** The place found in a run with room for the request. */
  lemma {:induction false} AlignedFree(m: Map, k: nat, size: Word, align: Word)
    requires Valid(m) && size > 0 && align > 0 && 0 !in FreeUnits(m) && k < |m.entries|
    requires m.entries[k].size >= size + Gap(m.entries[k].offset, align)
    ensures var idx := Multiple(m.entries[k], align);
            && 0 < idx < W && idx == Spot(m.entries[k], align) && idx % align == 0 && Range(idx, size) <= FreeUnits(m)
            && (InTop(m.entries, idx) <==> m.entries[k].offset + m.entries[k].size == W)
            && (!InTop(m.entries, idx) ==> idx + size < W)
  {
    var e := m.entries[k];
    assert Fits(e);
    GapExact(e.offset, align);
    var idx := Multiple(e, align);
    RangeFree(m.entries, k, idx, size);
    assert idx in Range(idx, size);
    InTopRun(m.entries, k, idx);
  }

  lemma {:induction false} AlignedNarrow(m: Map, size: Word, align: Word)
    requires Valid(m) && size > 0 && align > 0 && 0 !in FreeUnits(m) && size + align <= W
    ensures AlignMeets(m, size, align) <==> AlignSafe(m, size, align)
  {
    var k := FirstAligned(m.entries, size, align, 0);
    FirstAlignedExact(m.entries, size, align, 0);
    forall x | x % align == 0 && Range(x, size) <= FreeUnits(m)
      ensures k < |m.entries| && Multiple(m.entries[k], align) <= x
    {
      NoRoomBefore(m, size, align, k, x);
    }
    if k < |m.entries| {
      AlignedFree(m, k, size, align);
      var idx := Spot(m.entries[k], align);
      if InTop(m.entries, idx) {
        ReserveTop(m, idx, size);
      } else {
        ReserveInside(m, idx, size);
      }
    }
  }

  // A request that leaves no room for a gap cannot be met.

  lemma {:induction false} MultipleAtLeast(x: int, align: int)
    requires x > 0 && align > 0 && x % align == 0
    ensures x >= align
  {
    if x < align {
      ModUnique(x, align, 0, x);
    }
  }

  lemma {:induction false} NoAligned(m: Map, size: Word, align: Word, x: int)
    requires Valid(m) && size > 0 && align > 0 && 0 !in FreeUnits(m) && size + align > W && x % align == 0
    ensures !(Range(x, size) <= FreeUnits(m))
  {
    if Range(x, size) <= FreeUnits(m) {
      assert x in Range(x, size);
      var i := FreeAt(m.entries, x);
      assert Fits(m.entries[i]);
      RangeFree(m.entries, i, x, size);
      MultipleAtLeast(x, align);
    }
  }

  lemma {:induction false} FirstAlignedFits(s: seq<Entry>, size: Word, align: Word, i: nat)
    requires i <= |s| && align > 0
    ensures var k := FirstAligned(s, size, align, i); k < |s| ==> s[k].size >= Add(size, Gap(s[k].offset, align))
    decreases |s| - i
  {
    if i < |s| && s[i].size < Add(size, Gap(s[i].offset, align)) {
      FirstAlignedFits(s, size, align, i + 1);
    }
  }

  /** The sum of size and gap wraps around at every run found. */
  lemma {:induction false} WideWraps(m: Map, k: nat, size: Word, align: Word)
    requires Valid(m) && size > 0 && align > 0 && 0 !in FreeUnits(m) && size + align > W
    requires k == FirstAligned(m.entries, size, align, 0) && k < |m.entries|
    ensures size + Gap(m.entries[k].offset, align) >= W
    ensures size + Gap(m.entries[k].offset, align) - W <= m.entries[k].size
  {
    FirstAlignedFits(m.entries, size, align, 0);
    if size + Gap(m.entries[k].offset, align) < W {
      AlignedFree(m, k, size, align);
      NoAligned(m, size, align, Multiple(m.entries[k], align));
    }
  }

  /** When the multiple is beyond the last word, the range tried starts below the run and
      takes in the unit before it, which is not free. */
  lemma {:induction false} BeyondNotFree(m: Map, k: nat, size: Word, align: Word)
    requires Valid(m) && size > 0 && align > 0 && k < |m.entries| && Multiple(m.entries[k], align) >= W
    requires W <= size + Gap(m.entries[k].offset, align) <= W + m.entries[k].size
    ensures var idx := Spot(m.entries[k], align); !(Range(idx, size) <= FreeUnits(m)) && !InTop(m.entries, idx)
  {
    var e := m.entries[k];
    assert Fits(e);
    var idx := Spot(e, align);
    Around(m.entries, k);
    assert e.offset - 1 in Range(idx, size) && e.offset - 1 in Range(idx, W - idx);
    assert e.offset - 1 !in FreeUnits(m);
  }

  /** What the reservation does at the place found, for a request that cannot be met. */
  lemma {:induction false} WideReserve(m: Map, idx: Word, size: Word)
    requires Valid(m) && size > 0 && !(Range(idx, size) <= FreeUnits(m))
    ensures Reserve(m, idx, size).1 <==> !InTop(m.entries, idx) && idx in FreeUnits(m) && idx + size >= W
    ensures !Reserve(m, idx, size).1 ==> Reserve(m, idx, size).0 == m
  {
    if InTop(m.entries, idx) {
      ReserveTop(m, idx, size);
    } else if idx + size < W {
      ReserveInside(m, idx, size);
    } else {
      ReserveWrapped(m, idx, size);
    }
  }

  lemma {:induction false} AlignedWide(m: Map, size: Word, align: Word)
    requires Valid(m) && size > 0 && align > 0 && 0 !in FreeUnits(m) && size + align > W
    ensures AlignMeets(m, size, align) <==> AlignSafe(m, size, align)
  {
    var k := FirstAligned(m.entries, size, align, 0);
    forall x | x % align == 0 ensures !(Range(x, size) <= FreeUnits(m)) {
      NoAligned(m, size, align, x);
    }
    if k < |m.entries| {
      WideWraps(m, k, size, align);
      WideSpot(m, k, size, align);
      WideReserve(m, Spot(m.entries[k], align), size);
    }
  }

  lemma {:induction false} WideSpot(m: Map, k: nat, size: Word, align: Word)
    requires Valid(m) && size > 0 && align > 0 && 0 !in FreeUnits(m) && size + align > W && k < |m.entries|
    requires W <= size + Gap(m.entries[k].offset, align) <= W + m.entries[k].size
    ensures !(Range(Spot(m.entries[k], align), size) <= FreeUnits(m))
  {
    if Multiple(m.entries[k], align) >= W {
      BeyondNotFree(m, k, size, align);
    } else {
      GapExact(m.entries[k].offset, align);
      NoAligned(m, size, align, Spot(m.entries[k], align));
    }
  }

  /** An aligned allocation does what it is for exactly when it is safe. */
  lemma {:induction false} AllocAlignExact(m: Map, size: Word, align: Word)
    requires Valid(m) && size > 0 && align > 0 && 0 !in FreeUnits(m)
    ensures AlignMeets(m, size, align) <==> AlignSafe(m, size, align)
  {
    if size + align <= W {
      AlignedNarrow(m, size, align);
    } else {
      AlignedWide(m, size, align);
    }
  }

  /** For a request that leaves room for a gap the reservation inside the allocation fails
      exactly when the run found reaches the last word. No other request can be met. */
  lemma {:induction false} InnerReserve(m: Map, size: Word, align: Word)
    requires Valid(m) && size > 0 && align > 0 && 0 !in FreeUnits(m)
    ensures var k := FirstAligned(m.entries, size, align, 0);
            size + align <= W && k < |m.entries| ==>
              (AllocAlign(m, size, align).1 == 0 <==> m.entries[k].offset + m.entries[k].size == W)
    ensures size + align > W ==> forall x :: x % align == 0 ==> !(Range(x, size) <= FreeUnits(m))
  {
    if size + align <= W {
      var k := FirstAligned(m.entries, size, align, 0);
      FirstAlignedExact(m.entries, size, align, 0);
      if k < |m.entries| {
        AlignedFree(m, k, size, align);
        var idx := Spot(m.entries[k], align);
        if InTop(m.entries, idx) {
          ReserveTop(m, idx, size);
        } else {
          ReserveInside(m, idx, size);
        }
      }
    } else {
      forall x | x % align == 0 ensures !(Range(x, size) <= FreeUnits(m)) {
        NoAligned(m, size, align, x);
      }
    }
  }

  /** Releasing the last sixteen units into an empty map gives a run that reaches the last
      word. A reservation and an aligned allocation in it are refused although the units are
      free, and the units are reported as allocated. */
  lemma {:induction false} LastWordLost()
    ensures var m := Free(Map([], 4, 0), 0xFFFF_FFF0, 16);
            && Valid(m) && m == Map([Entry(0xFFFF_FFF0, 16)], 4, 0)
            && Range(0xFFFF_FFF4, 2) <= FreeUnits(m) && Reserve(m, 0xFFFF_FFF4, 2) == (m, false)
            && Range(0xFFFF_FFF0, 4) <= FreeUnits(m) && 0xFFFF_FFF0 % 4 == 0 && AllocAlign(m, 4, 4) == (m, 0)
            && Status(m, 0xFFFF_FFF4, 2) == 1
  {
    var e := Entry(0xFFFF_FFF0, 16);
    var m := Map([e], 4, 0);
    assert Insert([], 0, e) == [e];
    FreeSetOne(e);
    assert InTop(m.entries, 0xFFFF_FFF0) && InTop(m.entries, 0xFFFF_FFF4);
    HolderInTop(m.entries, 0xFFFF_FFF0);
    HolderInTop(m.entries, 0xFFFF_FFF4);
    assert FirstAligned(m.entries, 4, 4, 0) == 0;
  }

  /** When the sum wraps around, a region larger than the map is handed out and the list
      is no longer in order. */
  lemma {:induction false} AlignWraps()
    ensures var m := Map([Entry(5, 20)], 4, 0);
            var (n, idx) := AllocAlign(m, 0xFFFF_FFFF, 4);
            Valid(m) && idx == 8 && !(Range(8, 0xFFFF_FFFF) <= FreeUnits(m)) && !Valid(n)
  {
    var m := Map([Entry(5, 20)], 4, 0);
    assert FirstAligned(m.entries, 0xFFFF_FFFF, 4, 0) == 0;
    ReserveWraps();
  }

  // ---------- release ----------

  /** A range that abuts no run needs a slot. Without it the range is lost. */
  ghost function FreeLoss(m: Map, offset: int, size: int): set<int> {
    if |m.entries| == m.slots && offset - 1 !in FreeUnits(m) && offset + size !in FreeUnits(m) then Range(offset, size) else {}
  }

  /** Index 0 and the last word are not both free after the release. Maps are not made for
      index 0, which stands for failure, so this always holds in a run. */
  ghost predicate OneEnd(m: Map, offset: int, size: int) {
    0 !in FreeUnits(m) + Range(offset, size) || W - 1 !in FreeUnits(m) + Range(offset, size)
  }

  ghost predicate Given(m: Map, n: Map, given: set<int>, lost: set<int>) {
    && Valid(n) && n.slots == m.slots
    && FreeUnits(n) == FreeUnits(m) + given - lost
    && |lost| < W && n.lost == Add(m.lost, |lost|)
  }

  lemma {:induction false} Dropped(s: seq<Entry>, i: nat, j: nat)
    requires Good(s) && i <= j <= |s|
    ensures Good(s[..i] + s[j..])
  {
    var r := s[..i] + s[j..];
    forall p, q | 0 <= p < q < |r| ensures Below(r[p], r[q]) {
      assert Below(s[if p < i then p else p - i + j], s[if q < i then q else q - i + j]);
    }
  }

  lemma {:induction false} PutRun(a: seq<Entry>, e: Entry, b: seq<Entry>)
    requires Good(a + b) && Fits(e)
    requires forall p :: 0 <= p < |a| ==> Below(a[p], e)
    requires forall q :: 0 <= q < |b| ==> Below(e, b[q])
    ensures Good(a + [e] + b) && FreeSet(a + [e] + b) == FreeSet(a) + Units(e) + FreeSet(b)
  {
    var r := a + [e] + b;
    forall p | 0 <= p < |r| ensures Fits(r[p]) {
      assert p != |a| ==> r[p] == (a + b)[if p < |a| then p else p - 1];
    }
    forall p, q | 0 <= p < q < |r| ensures Below(r[p], r[q]) {
      if p != |a| && q != |a| {
        assert Below((a + b)[if p < |a| then p else p - 1], (a + b)[if q < |a| then q else q - 1]);
      }
    }
    FreeSetJoin(a + [e], b);
    FreeSetJoin(a, [e]);
    FreeSetOne(e);
  }

  /** What that means for a run. */
  lemma {:induction false} OneEndRun(m: Map, i: nat, offset: int, size: int)
    requires Valid(m) && i < |m.entries| && size > 0 && 0 <= offset && offset + size <= W && OneEnd(m, offset, size)
    ensures m.entries[i].offset + m.entries[i].size == W ==> offset > 0
    ensures offset + size == W ==> m.entries[i].offset > 0
  {
    var e := m.entries[i];
    assert Fits(e);
    FreeIn(m.entries, i);
    assert offset in Range(offset, size) && offset + size - 1 in Range(offset, size);
    assert e.offset in Units(e) && e.offset + e.size - 1 in Units(e);
  }

  lemma {:induction false} NeighbourExact(m: Map, offset: Word, size: Word, i: nat)
    requires Valid(m) && size > 0 && offset + size <= W && OneEnd(m, offset, size) && Range(offset, size) !! FreeUnits(m) && i <= |m.entries|
    requires forall j :: 0 <= j < i ==> m.entries[j].offset + m.entries[j].size < offset
    ensures var k := Neighbour(m.entries, offset, size, i);
            && (forall j :: 0 <= j < k ==> m.entries[j].offset + m.entries[j].size < offset)
            && (k < |m.entries| ==> offset <= m.entries[k].offset + m.entries[k].size)
    decreases |m.entries| - i
  {
    if i < |m.entries| {
      var e := m.entries[i];
      assert Fits(e);
      Apart(m, i, offset, size);
      OneEndRun(m, i, offset, size);
      if e.Top() != offset && Add(offset, size) != e.offset && offset >= e.offset {
        NeighbourExact(m, offset, size, i + 1);
      }
    }
  }

  lemma {:induction false} Apart(m: Map, i: nat, offset: int, size: int)
    requires Valid(m) && size > 0 && Range(offset, size) !! FreeUnits(m) && i < |m.entries|
    ensures var e := m.entries[i]; e.offset + e.size <= offset || offset + size <= e.offset
  {
    var e := m.entries[i];
    FreeIn(m.entries, i);
    assert Fits(e);
    assert e.offset in Units(e);
    assert offset in Range(offset, size);
  }

  /** The runs above a run that starts beyond the range do so as well. */
  lemma {:induction false} AllBeyond(s: seq<Entry>, i: nat, e: Entry)
    requires Good(s) && i <= |s| && (i < |s| ==> Below(e, s[i]))
    ensures forall q :: 0 <= q < |s[i..]| ==> Below(e, s[i..][q])
  {
    forall q | 0 <= q < |s[i..]| ensures Below(e, s[i..][q]) {
      if q > 0 {
        assert Below(s[i], s[i + q]);
      }
    }
  }

  lemma {:induction false} Cutting(s: seq<Entry>, i: nat, j: nat)
    requires i <= j <= |s|
    ensures FreeSet(s) == FreeSet(s[..i]) + FreeSet(s[i..j]) + FreeSet(s[j..])
  {
    assert s == s[..i] + s[i..j] + s[j..];
    FreeSetJoin(s[..i] + s[i..j], s[j..]);
    FreeSetJoin(s[..i], s[i..j]);
  }

  lemma {:induction false} PutEntries(s: seq<Entry>, i: nat, j: nat, e: Entry)
    requires Good(s) && i <= j <= |s| && Fits(e)
    requires forall p :: 0 <= p < i ==> Below(s[p], e)
    requires j < |s| ==> Below(e, s[j])
    ensures Good(s[..i] + [e] + s[j..]) && FreeSet(s[..i] + [e] + s[j..]) == FreeSet(s[..i]) + Units(e) + FreeSet(s[j..])
  {
    Dropped(s, i, j);
    AllBeyond(s, j, e);
    PutRun(s[..i], e, s[j..]);
  }

  lemma {:induction false} Widened(a: set<int>, b: set<int>, c: set<int>, given: set<int>)
    ensures a + (b + given) + c == a + b + c + given - {}
  {
  }

  /** Putting a run in place of the runs from i to j. */
  lemma {:induction false} Put(m: Map, n: Map, i: nat, j: nat, e: Entry, given: set<int>)
    requires Valid(m) && i <= j <= |m.entries| && Fits(e)
    requires forall p :: 0 <= p < i ==> Below(m.entries[p], e)
    requires j < |m.entries| ==> Below(e, m.entries[j])
    requires Units(e) == FreeSet(m.entries[i..j]) + given
    requires n == m.(entries := m.entries[..i] + [e] + m.entries[j..]) && |n.entries| <= m.slots
    ensures Given(m, n, given, {})
  {
    PutEntries(m.entries, i, j, e);
    Cutting(m.entries, i, j);
    Widened(FreeSet(m.entries[..i]), FreeSet(m.entries[i..j]), FreeSet(m.entries[j..]), given);
  }

  lemma {:induction false} GrowExact(m: Map, i: nat, size: Word)
    requires Valid(m) && i < |m.entries| && size > 0
    requires var top := m.entries[i].offset + m.entries[i].size;
             top + size <= W && OneEnd(m, top, size) && Range(top, size) !! FreeUnits(m)
    ensures var top := m.entries[i].offset + m.entries[i].size;
            Given(m, m.(entries := Grow(m.entries, i, size)), Range(top, size), {})
  {
    var s := m.entries;
    var e := s[i];
    var top := e.offset + e.size;
    var n := m.(entries := Grow(s, i, size));
    assert s[i..i + 1] == [e];
    FreeSetOne(e);
    OneEndRun(m, i, top, size);
    if i + 1 < |s| {
      assert Below(e, s[i + 1]) && Fits(s[i + 1]);
      Apart(m, i + 1, top, size);
    }
    if i + 1 < |s| && top + size == s[i + 1].offset {
      JoinNext(m, n, i, size);
    } else {
      assert n.entries == s[..i] + [Entry(e.offset, e.size + size)] + s[i + 1..];
      BelowAll(s, i);
      Put(m, n, i, i + 1, Entry(e.offset, e.size + size), Range(top, size));
    }
  }

  lemma {:induction false} BelowAll(s: seq<Entry>, i: nat)
    requires Good(s) && i < |s|
    ensures forall p :: 0 <= p < i ==> Below(s[p], s[i])
  {
  }

  /** A run that starts at index 0 and one that holds the last word are not both there. */
  lemma {:induction false} NotWhole(m: Map, i: nat)
    requires Valid(m) && i + 1 < |m.entries| && (0 !in FreeUnits(m) || W - 1 !in FreeUnits(m))
    ensures m.entries[i + 1].offset + m.entries[i + 1].size == W ==> m.entries[i].offset > 0
  {
    var e, f := m.entries[i], m.entries[i + 1];
    assert Fits(e) && Fits(f);
    FreeIn(m.entries, i);
    FreeIn(m.entries, i + 1);
    assert e.offset in Units(e) && f.offset + f.size - 1 in Units(f);
  }

  lemma {:induction false} GrowJoins(s: seq<Entry>, i: nat, size: Word, joined: Entry)
    requires i + 1 < |s| && s[i].offset + s[i].size + size == s[i + 1].offset
    requires s[i].size + size + s[i + 1].size < W && joined == Entry(s[i].offset, s[i].size + size + s[i + 1].size)
    ensures Grow(s, i, size) == s[..i] + [joined] + s[i + 2..]
  {
    assert Grow(s, i, size) == Delete(s[i := joined], i + 1);
    assert s[i := joined][..i + 1] == s[..i] + [joined];
  }

  lemma {:induction false} PairFree(s: seq<Entry>, i: nat)
    requires i + 1 < |s|
    ensures FreeSet(s[i..i + 2]) == Units(s[i]) + Units(s[i + 1])
  {
    assert s[i..i + 2] == [s[i]] + [s[i + 1]];
    FreeSetJoin([s[i]], [s[i + 1]]);
    FreeSetOne(s[i]);
    FreeSetOne(s[i + 1]);
  }

  lemma {:induction false} JoinedUnits(e: Entry, f: Entry, size: Word, joined: Entry)
    requires e.offset + e.size + size == f.offset && joined.offset == e.offset && joined.size == e.size + size + f.size
    ensures Units(joined) == Units(e) + Units(f) + Range(e.offset + e.size, size)
  {
  }

  lemma {:induction false} JoinNext(m: Map, n: Map, i: nat, size: Word)
    requires Valid(m) && i + 1 < |m.entries| && size > 0
    requires var e, f := m.entries[i], m.entries[i + 1];
             e.offset + e.size + size == f.offset && OneEnd(m, e.offset + e.size, size) && n == m.(entries := Grow(m.entries, i, size))
    ensures var e := m.entries[i]; Given(m, n, Range(e.offset + e.size, size), {})
  {
    var s := m.entries;
    var e, f := s[i], s[i + 1];
    assert Fits(f);
    NotWhole(m, i);
    var joined := Entry(e.offset, e.size + size + f.size);
    GrowJoins(s, i, size, joined);
    PairFree(s, i);
    JoinedUnits(e, f, size, joined);
    BelowAll(s, i);
    if i + 2 < |s| {
      assert Below(f, s[i + 2]);
    }
    Put(m, n, i, i + 2, joined, Range(e.offset + e.size, size));
  }

  /** A range strictly between the runs around i. */
  lemma {:induction false} NoNeighbour(m: Map, i: nat, offset: int, size: int)
    requires Valid(m) && i <= |m.entries| && size > 0
    requires forall j :: 0 <= j < i ==> m.entries[j].offset + m.entries[j].size < offset
    requires i < |m.entries| ==> offset + size < m.entries[i].offset
    ensures offset - 1 !in FreeUnits(m) && offset + size !in FreeUnits(m)
  {
    forall x | x in FreeUnits(m) ensures x != offset - 1 && x != offset + size {
      var k := FreeAt(m.entries, x);
      if i < k {
        assert Below(m.entries[i], m.entries[k]);
      }
    }
  }

  lemma {:induction false} PlaceExact(m: Map, i: nat, e: Entry)
    requires Valid(m) && i <= |m.entries| && Fits(e)
    requires forall j :: 0 <= j < i ==> Below(m.entries[j], e)
    requires i < |m.entries| ==> Below(e, m.entries[i])
    ensures Given(m, Place(m, i, e), Units(e), FreeLoss(m, e.offset, e.size))
  {
    NoNeighbour(m, i, e.offset, e.size);
    var n := Place(m, i, e);
    if |m.entries| == m.slots {
      RangeSize(e.offset, e.size);
      Unfree(m, e, i);
    } else {
      assert m.entries[i..i] == [];
      Put(m, n, i, i, e, Units(e));
    }
  }

  lemma {:induction false} Unfree(m: Map, e: Entry, i: nat)
    requires Valid(m) && i <= |m.entries|
    requires forall j :: 0 <= j < i ==> Below(m.entries[j], e)
    requires i < |m.entries| ==> Below(e, m.entries[i])
    ensures Units(e) !! FreeUnits(m)
  {
    forall x | x in FreeUnits(m) ensures x !in Units(e) {
      var k := FreeAt(m.entries, x);
      if i < k {
        assert Below(m.entries[i], m.entries[k]);
      }
    }
  }

  /** Releasing a range that is not free adds exactly its units, unless there is no slot
      for a run of its own. */
  lemma {:induction false} FreeExact(m: Map, offset: Word, size: Word)
    requires Valid(m) && size > 0 && offset + size <= W && OneEnd(m, offset, size) && Range(offset, size) !! FreeUnits(m)
    ensures Given(m, Free(m, offset, size), Range(offset, size), FreeLoss(m, offset, size))
  {
    var s := m.entries;
    var i := Neighbour(s, offset, size, 0);
    NeighbourExact(m, offset, size, 0);
    if i < |s| {
      assert Fits(s[i]);
      FreeIn(s, i);
      Apart(m, i, offset, size);
      OneEndRun(m, i, offset, size);
      FreeBeside(m, i, offset, size);
    } else {
      PlaceExact(m, i, Entry(offset, size));
    }
  }

  /** A range put in front of the run at i. */
  lemma {:induction false} PadFront(m: Map, i: nat, offset: Word, size: Word)
    requires Valid(m) && i < |m.entries| && size > 0 && offset + size == m.entries[i].offset && m.entries[i].size + size < W
    requires forall j :: 0 <= j < i ==> m.entries[j].offset + m.entries[j].size < offset
    ensures Given(m, m.(entries := m.entries[i := Entry(offset, m.entries[i].size + size)]), Range(offset, size), {})
  {
    var s, e := m.entries, m.entries[i];
    var longer := Entry(offset, e.size + size);
    assert Fits(e);
    assert s[i..i + 1] == [e];
    FreeSetOne(e);
    assert s[i := longer] == s[..i] + [longer] + s[i + 1..];
    if i + 1 < |s| {
      assert Below(e, s[i + 1]);
    }
    Put(m, m.(entries := s[i := longer]), i, i + 1, longer, Range(offset, size));
  }

  lemma {:induction false} FreeBeside(m: Map, i: nat, offset: Word, size: Word)
    requires Valid(m) && size > 0 && offset + size <= W && OneEnd(m, offset, size) && Range(offset, size) !! FreeUnits(m)
    requires i == Neighbour(m.entries, offset, size, 0) && i < |m.entries| && Fits(m.entries[i])
    requires forall j :: 0 <= j < i ==> m.entries[j].offset + m.entries[j].size < offset
    requires var e := m.entries[i]; e.offset + e.size == offset || offset + size <= e.offset
    requires Units(m.entries[i]) <= FreeUnits(m)
    requires m.entries[i].offset + m.entries[i].size == W ==> offset > 0
    requires offset + size == W ==> m.entries[i].offset > 0
    ensures Given(m, Free(m, offset, size), Range(offset, size), FreeLoss(m, offset, size))
  {
    var s := m.entries;
    var e := s[i];
    if e.offset + e.size == offset {
      assert offset - 1 in Units(e);
      GrowExact(m, i, size);
    } else if offset + size == e.offset {
      assert offset + size in Units(e);
      PadFront(m, i, offset, size);
    } else {
      PlaceExact(m, i, Entry(offset, size));
    }
  }
}
