/** Quicksort with an explicit stack of thirty segments. */
module QuickSort {
  import opened SortSpec

  const CUTOFF: nat := 8
  const SLOTS: nat := 30

  method Swap<T>(a: array<T>, i: nat, j: nat)
    requires i < a.Length && j < a.Length
    modifies a
    ensures a[..] == Swapped(old(a[..]), i, j)
  {
    if i != j {
      a[i], a[j] := a[j], a[i];
    }
  }

  /** The place of a greatest element from lo to hi. */
  method FindMax<T(!new)>(a: array<T>, lo: nat, hi: nat, cmp: (T, T) -> int) returns (max: nat)
    requires lo <= hi < a.Length && Preorder(cmp)
    ensures lo <= max <= hi && forall k :: lo <= k <= hi ==> Le(cmp, a[k], a[max])
  {
    max := lo;
    var p := lo + 1;
    while p <= hi
      invariant lo <= max < p <= hi + 1 && forall k :: lo <= k < p ==> Le(cmp, a[k], a[max])
    {
      if cmp(a[p], a[max]) > 0 {
        max := p;
      }
      p := p + 1;
    }
  }

  /** From k + 1 to hi every element has its final place in the segment. */
  ghost predicate Placed<T(!new)>(cmp: (T, T) -> int, s: seq<T>, lo: nat, k: int, hi: nat) {
    hi < |s| && forall i, j {:trigger Le(cmp, s[i], s[j])} :: lo <= i < j <= hi && k < j ==> Le(cmp, s[i], s[j])
  }

  lemma {:induction false} PlaceMax<T(!new)>(cmp: (T, T) -> int, s: seq<T>, lo: nat, max: nat, k: nat, hi: nat)
    requires Placed(cmp, s, lo, k, hi) && lo <= max <= k <= hi
    requires forall i :: lo <= i <= k ==> Le(cmp, s[i], s[max])
    ensures Placed(cmp, Swapped(s, max, k), lo, k - 1, hi)
  {
    var t := Swapped(s, max, k);
    forall i, j | lo <= i < j <= hi && k - 1 < j ensures Le(cmp, t[i], t[j]) {
      var i' := if i == max then k else if i == k then max else i;
      if j == k {
        assert Le(cmp, s[i'], s[max]);
      } else {
        assert Le(cmp, s[i'], s[j]);
      }
    }
  }

  /** Selection sort of a short segment. */
  method ShortSort<T(!new)>(a: array<T>, lo: nat, hi: nat, cmp: (T, T) -> int)
    requires lo <= hi < a.Length && Preorder(cmp)
    modifies a
    ensures Permuted(old(a[..]), a[..], lo, hi) && Resolved(cmp, a[..], Seg(lo, hi), [])
  {
    var top := hi;
    ghost var before := a[..];
    while top > lo
      invariant lo <= top <= hi && Permuted(before, a[..], lo, hi) && Placed(cmp, a[..], lo, top, hi)
    {
      var max := FindMax(a, lo, top, cmp);
      ghost var s := a[..];
      assert forall i :: lo <= i <= top ==> Le(cmp, s[i], s[max]);
      Swap(a, max, top);
      PlaceMax(cmp, s, lo, max, top, hi);
      SwapPermutes(s, max, top, lo, hi);
      PermutedThen(before, s, a[..], lo, hi);
      top := top - 1;
    }
  }

  method ScanUp<T(!new)>(a: array<T>, lo: nat, hi: nat, from: nat, cmp: (T, T) -> int) returns (l: nat)
    requires lo <= from <= hi < a.Length
    ensures from < l <= hi + 1 && forall k :: from < k < l ==> Le(cmp, a[k], a[lo])
    ensures l <= hi ==> cmp(a[l], a[lo]) > 0
  {
    l := from + 1;
    while l <= hi && cmp(a[l], a[lo]) <= 0
      invariant from < l <= hi + 1 && forall k :: from < k < l ==> Le(cmp, a[k], a[lo])
    {
      l := l + 1;
    }
  }

  method ScanDown<T(!new)>(a: array<T>, lo: nat, hi: nat, from: nat, cmp: (T, T) -> int) returns (h: nat)
    requires lo < from <= hi + 1 <= a.Length && Preorder(cmp)
    ensures lo <= h < from && forall k :: h < k < from ==> Le(cmp, a[lo], a[k])
    ensures h > lo ==> cmp(a[h], a[lo]) < 0
  {
    h := from - 1;
    while h > lo && cmp(a[h], a[lo]) >= 0
      invariant lo <= h < from && forall k :: h < k < from ==> Le(cmp, a[lo], a[k])
    {
      h := h - 1;
    }
  }

  /** The elements up to l are not greater than the pivot at lo, those from h on not less. */
  ghost predicate Scanned<T(!new)>(cmp: (T, T) -> int, s: seq<T>, lo: nat, l: nat, h: nat, hi: nat) {
    && lo <= l && h <= hi + 1 <= |s|
    && (forall k :: lo < k < l && k <= hi ==> Le(cmp, s[k], s[lo]))
    && (forall k :: h < k <= hi && k > lo ==> Le(cmp, s[lo], s[k]))
  }

  lemma {:induction false} PivotInPlace<T(!new)>(cmp: (T, T) -> int, s: seq<T>, lo: nat, l: nat, h: nat, hi: nat)
    requires Preorder(cmp) && Scanned(cmp, s, lo, l, h, hi) && lo <= h < l <= hi + 1
    ensures Split(cmp, Swapped(s, lo, h), lo, h, l, hi)
  {
    var t := Swapped(s, lo, h);
    assert Le(cmp, s[lo], s[lo]);
    forall k | lo <= k < l ensures Le(cmp, t[k], t[h]) {
      var k' := if k == lo then h else if k == h then lo else k;
      assert k' > lo ==> Le(cmp, s[k'], s[lo]);
    }
    forall k | h <= k <= hi ensures Le(cmp, t[h], t[k]) {
      assert k > h ==> Le(cmp, s[lo], s[k]);
    }
  }

  /** A swap within a segment, after other permutations of it. */
  method SwapWithin<T>(a: array<T>, i: nat, j: nat, lo: nat, hi: nat, ghost before: seq<T>)
    requires lo <= i <= hi < a.Length && lo <= j <= hi && Permuted(before, a[..], lo, hi)
    modifies a
    ensures a[..] == Swapped(old(a[..]), i, j) && Permuted(before, a[..], lo, hi)
  {
    SwapPermutes(a[..], i, j, lo, hi);
    PermutedThen(before, a[..], Swapped(a[..], i, j), lo, hi);
    Swap(a, i, j);
  }

  /** Scans from both ends and exchanges the elements found, unless the scans cross. */
  method Approach<T(!new)>(a: array<T>, lo: nat, hi: nat, l0: nat, h0: nat, cmp: (T, T) -> int, ghost before: seq<T>)
    returns (l: nat, h: nat)
    requires lo <= l0 <= hi < a.Length && lo < h0 <= hi + 1 && Preorder(cmp)
    requires Permuted(before, a[..], lo, hi) && Scanned(cmp, a[..], lo, l0 + 1, h0 - 1, hi)
    modifies a
    ensures lo <= h < h0 && l0 < l <= hi + 1 && Permuted(before, a[..], lo, hi)
    ensures if h < l then Scanned(cmp, a[..], lo, l, h, hi)
            else l <= hi && lo < h && Scanned(cmp, a[..], lo, l + 1, h - 1, hi)
  {
    l := ScanUp(a, lo, hi, l0, cmp);
    h := ScanDown(a, lo, hi, h0, cmp);
    assert Scanned(cmp, a[..], lo, l, h, hi);
    if l <= h {
      Exchanged(cmp, a[..], lo, l, h, hi);
      SwapWithin(a, l, h, lo, hi, before);
    }
  }

  lemma {:induction false} Exchanged<T(!new)>(cmp: (T, T) -> int, s: seq<T>, lo: nat, l: nat, h: nat, hi: nat)
    requires Preorder(cmp) && Scanned(cmp, s, lo, l, h, hi) && lo < l <= h <= hi
    requires cmp(s[l], s[lo]) > 0 && cmp(s[h], s[lo]) < 0
    ensures Scanned(cmp, Swapped(s, l, h), lo, l + 1, h - 1, hi)
  {
  }

  /** Splits a segment around the element in its middle. */
  method Partition<T(!new)>(a: array<T>, lo: nat, hi: nat, cmp: (T, T) -> int) returns (l: nat, h: nat)
    requires lo < hi < a.Length && Preorder(cmp)
    modifies a
    ensures Permuted(old(a[..]), a[..], lo, hi) && Split(cmp, a[..], lo, h, l, hi)
  {
    ghost var before := a[..];
    var size := hi - lo + 1;
    SwapWithin(a, lo + size / 2, lo, lo, hi, before);
    l, h := lo, hi + 1;
    while l <= h
      invariant lo <= l <= hi + 1 && lo <= h <= hi + 1 && Permuted(before, a[..], lo, hi)
      invariant if h < l then Scanned(cmp, a[..], lo, l, h, hi)
                else l <= hi && lo < h && Scanned(cmp, a[..], lo, l + 1, h - 1, hi)
      decreases hi + 1 - l
    {
      l, h := Approach(a, lo, hi, l, h, cmp, before);
    }
    PivotInPlace(cmp, a[..], lo, l, h, hi);
    SwapWithin(a, lo, h, lo, hi, before);
  }

  /** The stack: the segments in the first n slots. */
  ghost function Stack(lo: array<nat>, hi: array<nat>, n: nat): (r: seq<Seg>)
    requires n <= lo.Length && n <= hi.Length
    reads lo, hi
    ensures |r| == n
  {
    seq(n, i requires 0 <= i < n reads lo, hi => Seg(lo[i], hi[i]))
  }

  method Push(lostk: array<nat>, histk: array<nat>, n: nat, seg: Seg)
    requires n < lostk.Length && n < histk.Length && lostk != histk
    modifies lostk, histk
    ensures Stack(lostk, histk, n + 1) == old(Stack(lostk, histk, n)) + [seg]
  {
    lostk[n] := seg.lo;
    histk[n] := seg.hi;
  }

  /** All segments pending: the stack, and the segment being worked on. */
  ghost function All(lostk: array<nat>, histk: array<nat>, n: nat, more: bool, lo: nat, hi: nat): seq<Seg>
    requires n <= lostk.Length && n <= histk.Length
    reads lostk, histk
  {
    Stack(lostk, histk, n) + if more then [Seg(lo, hi)] else []
  }

  /** Takes the next segment off the stack. */
  method Pop(lostk: array<nat>, histk: array<nat>, n: nat) returns (more: bool, k: nat, lo: nat, hi: nat)
    requires n <= lostk.Length && n <= histk.Length
    ensures k <= n && (more <==> n > 0) && All(lostk, histk, k, more, lo, hi) == Stack(lostk, histk, n)
  {
    more, k, lo, hi := n > 0, 0, 0, 0;
    if more {
      k := n - 1;
      lo, hi := lostk[k], histk[k];
    }
    assert All(lostk, histk, k, more, lo, hi) == Stack(lostk, histk, n);
  }

  /** Pushes the larger part, and goes on with the smaller one or with the stack. */
  method PushParts(lostk: array<nat>, histk: array<nat>, n: nat, lo: nat, h: nat, l: nat, hi: nat)
    returns (more: bool, k: nat, lo': nat, hi': nat)
    requires n < lostk.Length && n < histk.Length && lostk != histk && lo <= h
    modifies lostk, histk
    ensures k <= n + 1 && (!more ==> k == 0)
    ensures All(lostk, histk, k, more, lo', hi') == old(Stack(lostk, histk, n)) + Parts(lo, h, l, hi)
  {
    k := n;
    if h - lo > hi - l {
      if lo + 1 < h {
        Push(lostk, histk, k, Seg(lo, h - 1));
        k := k + 1;
      }
      if l < hi {
        assert All(lostk, histk, k, true, l, hi) == old(Stack(lostk, histk, n)) + Parts(lo, h, l, hi);
        return true, k, l, hi;
      }
    } else {
      if l < hi {
        Push(lostk, histk, k, Seg(l, hi));
        k := k + 1;
      }
      if lo + 1 < h {
        assert All(lostk, histk, k, true, lo, h - 1) == old(Stack(lostk, histk, n)) + Parts(lo, h, l, hi);
        return true, k, lo, h - 1;
      }
    }
    assert Stack(lostk, histk, k) == old(Stack(lostk, histk, n)) + Parts(lo, h, l, hi);
    more, k, lo', hi' := Pop(lostk, histk, k);
  }

  /** Sorts or splits one segment. */
  method Round<T(!new)>(a: array<T>, cmp: (T, T) -> int, lostk: array<nat>, histk: array<nat>, n: nat, lo: nat, hi: nat, ghost before: seq<T>)
    returns (more: bool, k: nat, lo': nat, hi': nat)
    requires Preorder(cmp) && a.Length < 0x1_0000_0000 && n < SLOTS == lostk.Length == histk.Length && lostk != histk
    requires a as object != lostk as object && a as object != histk as object
    requires Working(cmp, before, a[..], All(lostk, histk, n, true, lo, hi))
    modifies a, lostk, histk
    ensures k < SLOTS && (!more ==> k == 0)
    ensures Working(cmp, before, a[..], All(lostk, histk, k, more, lo', hi'))
    ensures Left(All(lostk, histk, k, more, lo', hi')) < old(Left(All(lostk, histk, n, true, lo, hi)))
  {
    ghost var r := Stack(lostk, histk, n);
    ghost var s := a[..];
    assert (r + [Seg(lo, hi)])[n] == Seg(lo, hi);
    if hi - lo + 1 <= CUTOFF {
      ShortSort(a, lo, hi, cmp);
      AfterShort(cmp, before, s, a[..], r, Seg(lo, hi));
      LeftMore(r, Seg(lo, hi));
      more, k, lo', hi' := Pop(lostk, histk, n);
    } else {
      RoomOnStack(r + [Seg(lo, hi)], a.Length);
      var l, h := Partition(a, lo, hi, cmp);
      AfterSplit(cmp, before, s, a[..], r, lo, h, l, hi);
      PartsLeft(r, lo, h, l, hi);
      more, k, lo', hi' := PushParts(lostk, histk, n, lo, h, l, hi);
    }
  }

  /** Sorts any array for any preorder. */
  method Sort<T(!new)>(a: array<T>, cmp: (T, T) -> int)
    requires Preorder(cmp) && a.Length < 0x1_0000_0000
    modifies a
    ensures Sorted(cmp, a[..]) && multiset(a[..]) == multiset(old(a[..]))
  {
    if a.Length < 2 {
      return;
    }
    ghost var before := a[..];
    var lostk := new nat[SLOTS];
    var histk := new nat[SLOTS];
    var more, stkptr: nat, lo: nat, hi: nat := true, 0, 0, a.Length - 1;
    WorkStarts(cmp, before);
    assert All(lostk, histk, 0, true, lo, hi) == [Seg(0, |before| - 1)];
    while more
      invariant fresh(lostk) && fresh(histk) && stkptr < SLOTS && (!more ==> stkptr == 0)
      invariant Working(cmp, before, a[..], All(lostk, histk, stkptr, more, lo, hi))
      decreases Left(All(lostk, histk, stkptr, more, lo, hi))
    {
      LeftNat(All(lostk, histk, stkptr, more, lo, hi), a.Length);
      more, stkptr, lo, hi := Round(a, cmp, lostk, histk, stkptr, lo, hi, before);
    }
    NothingPending(cmp, a[..]);
  }
}
