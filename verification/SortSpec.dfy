/**
 What the sort keeps while segments of the array are still waiting to be sorted.
 */
module SortSpec {
  import opened Arithmetic

  /** A comparison that orders its arguments by sign, with ties. */
  ghost predicate Preorder<T(!new)>(cmp: (T, T) -> int) {
    && (forall x, y :: cmp(x, y) <= 0 <==> cmp(y, x) >= 0)
    && (forall x, y, z :: cmp(x, y) <= 0 && cmp(y, z) <= 0 ==> cmp(x, z) <= 0)
  }

  /** The elements from lo to hi, both included. */
  datatype Seg = Seg(lo: nat, hi: nat) {
    function Size(): int {
      hi - lo + 1
    }
  }

  ghost predicate Le<T(!new)>(cmp: (T, T) -> int, x: T, y: T) {
    cmp(x, y) <= 0
  }

  ghost predicate Sorted<T(!new)>(cmp: (T, T) -> int, s: seq<T>) {
    forall i, j {:trigger Le(cmp, s[i], s[j])} :: 0 <= i < j < |s| ==> Le(cmp, s[i], s[j])
  }

  /** s and t differ at most by a permutation of the elements from lo to hi. */
  ghost predicate Permuted<T>(s: seq<T>, t: seq<T>, lo: nat, hi: nat) {
    && |s| == |t| && lo <= hi < |s|
    && (forall i :: 0 <= i < |s| && !(lo <= i <= hi) ==> s[i] == t[i])
    && multiset(s[lo..hi + 1]) == multiset(t[lo..hi + 1])
  }

  function Swapped<T>(s: seq<T>, i: nat, j: nat): seq<T>
    requires i < |s| && j < |s|
  {
    s[i := s[j]][j := s[i]]
  }

  lemma {:induction false} SwapPermutes<T>(s: seq<T>, i: nat, j: nat, lo: nat, hi: nat)
    requires lo <= i <= hi < |s| && lo <= j <= hi
    ensures Permuted(s, Swapped(s, i, j), lo, hi)
  {
    var t := Swapped(s, i, j);
    var u := s[lo..hi + 1];
    assert t[lo..hi + 1] == u[i - lo := u[j - lo]][j - lo := u[i - lo]];
  }

  lemma {:induction false} PermutedThen<T>(s: seq<T>, t: seq<T>, u: seq<T>, lo: nat, hi: nat)
    requires Permuted(s, t, lo, hi) && Permuted(t, u, lo, hi)
    ensures Permuted(s, u, lo, hi)
  {
  }

  lemma {:induction false} PermutedWhole<T>(s: seq<T>, t: seq<T>, lo: nat, hi: nat)
    requires Permuted(s, t, lo, hi)
    ensures multiset(s) == multiset(t)
  {
    assert s == s[..lo] + s[lo..hi + 1] + s[hi + 1..];
    assert t == t[..lo] + t[lo..hi + 1] + t[hi + 1..];
    assert s[..lo] == t[..lo] && s[hi + 1..] == t[hi + 1..];
  }

  /** Where an element of the segment came from. */
  lemma {:induction false} Source<T>(s: seq<T>, t: seq<T>, lo: nat, hi: nat, j: nat) returns (k: nat)
    requires Permuted(s, t, lo, hi) && lo <= j <= hi
    ensures lo <= k <= hi && s[k] == t[j]
  {
    var u := t[lo..hi + 1];
    assert u[j - lo] == t[j];
    assert t[j] in multiset(u);
    assert t[j] in s[lo..hi + 1];
    var i :| 0 <= i < |s[lo..hi + 1]| && s[lo..hi + 1][i] == t[j];
    k := lo + i;
  }

  // ---------- pending segments ----------

  ghost predicate Apart(p: Seg, q: Seg) {
    p.hi < q.lo || q.hi < p.lo
  }

  ghost predicate Pending(p: seq<Seg>, n: nat) {
    && (forall i :: 0 <= i < |p| ==> p[i].lo < p[i].hi < n)
    && (forall i, j {:trigger Apart(p[i], p[j])} :: 0 <= i < j < |p| ==> Apart(p[i], p[j]))
  }

  ghost predicate Within(p: seq<Seg>, k: nat, i: int, j: int) {
    k < |p| && p[k].lo <= i && j <= p[k].hi
  }

  /** Both positions lie in one segment. */
  ghost predicate Together(p: seq<Seg>, i: int, j: int) {
    exists k :: Within(p, k, i, j)
  }

  /** The sequence is sorted but for the order inside of pending segments. */
  ghost predicate Ready<T(!new)>(cmp: (T, T) -> int, s: seq<T>, p: seq<Seg>) {
    forall i, j {:trigger Le(cmp, s[i], s[j])} :: 0 <= i < j < |s| ==> Together(p, i, j) || Le(cmp, s[i], s[j])
  }

  /** Sorting out one segment into the segments q inside of it. */
  ghost predicate Resolved<T(!new)>(cmp: (T, T) -> int, t: seq<T>, seg: Seg, q: seq<Seg>) {
    && seg.hi < |t|
    && (forall k :: 0 <= k < |q| ==> seg.lo <= q[k].lo < q[k].hi <= seg.hi)
    && forall i, j {:trigger Le(cmp, t[i], t[j])} :: seg.lo <= i < j <= seg.hi ==> Together(q, i, j) || Le(cmp, t[i], t[j])
  }

  lemma {:induction false} Advance<T(!new)>(cmp: (T, T) -> int, s: seq<T>, t: seq<T>, r: seq<Seg>, seg: Seg, q: seq<Seg>)
    requires Ready(cmp, s, r + [seg]) && Pending(r + [seg], |s|)
    requires Permuted(s, t, seg.lo, seg.hi) && Resolved(cmp, t, seg, q)
    ensures Ready(cmp, t, r + q)
  {
    forall i, j | 0 <= i < j < |t| ensures Together(r + q, i, j) || Le(cmp, t[i], t[j]) {
      Advanced(cmp, s, t, r, seg, q, i, j);
    }
  }

  lemma {:induction false} Advanced<T(!new)>(cmp: (T, T) -> int, s: seq<T>, t: seq<T>, r: seq<Seg>, seg: Seg, q: seq<Seg>, i: nat, j: nat)
    requires Ready(cmp, s, r + [seg]) && Pending(r + [seg], |s|)
    requires Permuted(s, t, seg.lo, seg.hi) && Resolved(cmp, t, seg, q) && i < j < |t|
    ensures Together(r + q, i, j) || Le(cmp, t[i], t[j])
  {
    if seg.lo <= i && j <= seg.hi {
      if !Le(cmp, t[i], t[j]) {
        var k :| Within(q, k, i, j);
        assert Within(r + q, |r| + k, i, j);
      }
    } else {
      var i' := Before(s, t, seg, i);
      var j' := Before(s, t, seg, j);
      assert Le(cmp, s[i'], s[j']) || Together(r + [seg], i', j');
      if !Le(cmp, t[i], t[j]) {
        var k :| Within(r + [seg], k, i', j');
        Elsewhere(r, seg, k, i, j, i', j', |s|);
        assert Within(r + q, k, i, j);
      }
    }
  }

  /** The place the element at i had before, itself when it is outside of the segment. */
  lemma {:induction false} Before<T>(s: seq<T>, t: seq<T>, seg: Seg, i: nat) returns (k: nat)
    requires Permuted(s, t, seg.lo, seg.hi) && i < |t|
    ensures k < |s| && s[k] == t[i] && (if seg.lo <= i <= seg.hi then seg.lo <= k <= seg.hi else k == i)
  {
    if seg.lo <= i <= seg.hi {
      k := Source(s, t, seg.lo, seg.hi, i);
    } else {
      k := i;
    }
  }

  /** Positions not both in the segment that lie together do so elsewhere. */
  lemma {:induction false} Elsewhere(r: seq<Seg>, seg: Seg, k: nat, i: nat, j: nat, i': nat, j': nat, n: nat)
    requires Pending(r + [seg], n) && Within(r + [seg], k, i', j') && i < j && !(seg.lo <= i && j <= seg.hi)
    requires if seg.lo <= i <= seg.hi then seg.lo <= i' <= seg.hi else i' == i
    requires if seg.lo <= j <= seg.hi then seg.lo <= j' <= seg.hi else j' == j
    ensures k < |r| && i' == i && j' == j
  {
    if k < |r| {
      assert Apart((r + [seg])[k], (r + [seg])[|r|]);
    }
  }

  lemma {:induction false} AdvancePending(r: seq<Seg>, seg: Seg, q: seq<Seg>, n: nat)
    requires Pending(r + [seg], n) && Pending(q, n)
    requires forall k :: 0 <= k < |q| ==> seg.lo <= q[k].lo && q[k].hi <= seg.hi
    ensures Pending(r + q, n)
  {
    var p := r + q;
    forall i, j | 0 <= i < j < |p| ensures Apart(p[i], p[j]) {
      if i < |r| && j >= |r| {
        assert Apart((r + [seg])[i], (r + [seg])[|r|]);
      } else if j < |r| {
        assert Apart((r + [seg])[i], (r + [seg])[j]);
      } else {
        assert Apart(q[i - |r|], q[j - |r|]);
      }
    }
    forall i | 0 <= i < |p| ensures p[i].lo < p[i].hi < n {
      if i < |r| {
        assert (r + [seg])[i] == p[i];
      }
    }
  }

  lemma {:induction false} NothingPending<T(!new)>(cmp: (T, T) -> int, s: seq<T>)
    requires Ready(cmp, s, [])
    ensures Sorted(cmp, s)
  {
    forall i, j | 0 <= i < j < |s| ensures Le(cmp, s[i], s[j]) {
      assert Together([], i, j) || Le(cmp, s[i], s[j]);
    }
  }

  // ---------- the stack bound ----------

  /** The segment in slot i is at most 1/2^i of the array. */
  ghost predicate Halving(p: seq<Seg>, num: nat) {
    forall i :: 0 <= i < |p| ==> p[i].Size() * Pow2(i) <= num
  }

  /** A segment longer than the cutoff leaves room on the stack. */
  lemma {:induction false} RoomOnStack(p: seq<Seg>, num: nat)
    requires Halving(p, num) && p != [] && p[|p| - 1].Size() > 8 && num < 0x1_0000_0000
    ensures |p| <= 29
  {
    if |p| > 29 {
      Pow2Grows(29, |p| - 1);
      Pow2At29();
      MulLe(9, p[|p| - 1].Size(), Pow2(|p| - 1));
      assert false;
    }
  }

  lemma {:induction false} Pow2Grows(a: nat, b: nat)
    requires a <= b
    ensures Pow2(a) <= Pow2(b)
  {
    if a < b {
      Pow2Grows(a, b - 1);
    }
  }

  lemma {:induction false} Pow2At29()
    ensures Pow2(29) == 0x2000_0000
  {
    assert Pow2(8) == 256;
    assert Pow2(16) == 256 * Pow2(8);
    assert Pow2(24) == 256 * Pow2(16);
    assert Pow2(29) == 32 * Pow2(24);
  }

  /** Pushing the larger part and going on with the smaller one. */
  lemma {:induction false} HalvingPush(r: seq<Seg>, seg: Seg, large: Seg, small: Seg, num: nat)
    requires Halving(r + [seg], num) && 0 <= small.Size() <= large.Size() && small.Size() + large.Size() < seg.Size()
    ensures Halving(r + [large, small], num)
  {
    var d := |r|;
    assert (r + [seg])[d] == seg;
    MulLe(large.Size(), seg.Size(), Pow2(d));
    MulLe(2 * small.Size(), seg.Size(), Pow2(d));
    assert small.Size() * Pow2(d + 1) == 2 * small.Size() * Pow2(d);
    var p := r + [large, small];
    forall i | 0 <= i < |p| ensures p[i].Size() * Pow2(i) <= num {
      if i < d {
        assert p[i] == (r + [seg])[i];
      }
    }
  }

  lemma {:induction false} HalvingReplace(r: seq<Seg>, seg: Seg, next: Seg, num: nat)
    requires Halving(r + [seg], num) && 0 <= next.Size() <= seg.Size()
    ensures Halving(r + [next], num)
  {
    assert (r + [seg])[|r|] == seg;
    MulLe(next.Size(), seg.Size(), Pow2(|r|));
    var p := r + [next];
    forall i | 0 <= i < |p| ensures p[i].Size() * Pow2(i) <= num {
      if i < |r| {
        assert p[i] == (r + [seg])[i];
      }
    }
  }

  lemma {:induction false} HalvingPrefix(p: seq<Seg>, k: nat, num: nat)
    requires Halving(p, num) && k <= |p|
    ensures Halving(p[..k], num)
  {
  }

  /** The number of elements still in pending segments. */
  ghost function Left(p: seq<Seg>): int {
    if p == [] then 0 else Left(p[..|p| - 1]) + p[|p| - 1].Size()
  }

  lemma {:induction false} LeftMore(p: seq<Seg>, q: Seg)
    ensures Left(p + [q]) == Left(p) + q.Size()
  {
    assert (p + [q])[..|p|] == p;
  }

  lemma {:induction false} LeftNat(p: seq<Seg>, n: nat)
    requires Pending(p, n)
    ensures Left(p) >= 0
  {
    if p != [] {
      assert Pending(p[..|p| - 1], n) by {
        var q := p[..|p| - 1];
        forall i, j | 0 <= i < j < |q| ensures Apart(q[i], q[j]) {
          assert Apart(p[i], p[j]);
        }
      }
      LeftNat(p[..|p| - 1], n);
    }
  }

  // ---------- one round ----------

  /** What holds between two rounds: the array is a permutation of the original one, sorted
      but for the pending segments, which are short enough for the stack. */
  ghost predicate Working<T(!new)>(cmp: (T, T) -> int, before: seq<T>, s: seq<T>, p: seq<Seg>) {
    Pending(p, |s|) && Ready(cmp, s, p) && Halving(p, |s|) && multiset(s) == multiset(before)
  }

  /** The parts of a segment that are still to be sorted, the larger one first. */
  function Parts(lo: nat, h: nat, l: nat, hi: nat): seq<Seg>
    requires lo <= h
  {
    var left := if lo + 1 < h then [Seg(lo, h - 1)] else [];
    var right := if l < hi then [Seg(l, hi)] else [];
    if h - lo > hi - l then left + right else right + left
  }

  lemma {:induction false} PartsHalving(r: seq<Seg>, lo: nat, h: nat, l: nat, hi: nat, num: nat)
    requires Halving(r + [Seg(lo, hi)], num) && lo <= h < l <= hi + 1
    ensures Halving(r + Parts(lo, h, l, hi), num)
  {
    var seg := Seg(lo, hi);
    var q := Parts(lo, h, l, hi);
    if |q| == 2 {
      HalvingPush(r, seg, q[0], q[1], num);
      assert q == [q[0], q[1]];
    } else if |q| == 1 {
      HalvingReplace(r, seg, q[0], num);
      assert q == [q[0]];
    } else {
      HalvingPrefix(r + [seg], |r|, num);
      assert r + q == (r + [seg])[..|r|];
    }
  }

  lemma {:induction false} LeftTwo(r: seq<Seg>, x: Seg, y: Seg)
    ensures Left(r + [x, y]) == Left(r) + x.Size() + y.Size()
  {
    assert r + [x, y] == (r + [x]) + [y];
    LeftMore(r + [x], y);
    LeftMore(r, x);
  }

  lemma {:induction false} PartsLeft(r: seq<Seg>, lo: nat, h: nat, l: nat, hi: nat)
    requires lo <= h < l <= hi + 1
    ensures Left(r + Parts(lo, h, l, hi)) < Left(r + [Seg(lo, hi)])
  {
    var q := Parts(lo, h, l, hi);
    var before, after := Left(r + [Seg(lo, hi)]), Left(r + q);
    LeftMore(r, Seg(lo, hi));
    assert after == Left(r) + (if lo + 1 < h then h - lo else 0) + (if l < hi then hi - l + 1 else 0) by {
      if |q| == 2 {
        assert q == [q[0], q[1]];
        LeftTwo(r, q[0], q[1]);
      } else if |q| == 1 {
        assert q == [q[0]];
        LeftMore(r, q[0]);
      } else {
        assert r + q == r;
      }
    }
  }

  lemma {:induction false} PartsPending(lo: nat, h: nat, l: nat, hi: nat, n: nat)
    requires lo <= h < l <= hi + 1 <= n
    ensures Pending(Parts(lo, h, l, hi), n)
    ensures forall k :: 0 <= k < |Parts(lo, h, l, hi)| ==> lo <= Parts(lo, h, l, hi)[k].lo && Parts(lo, h, l, hi)[k].hi <= hi
  {
  }

  /** The pivot stands at h: nothing before it is greater, nothing after it is less, and
      everything from h to l is equal to it. */
  ghost predicate Split<T(!new)>(cmp: (T, T) -> int, s: seq<T>, lo: nat, h: nat, l: nat, hi: nat) {
    && lo <= h < l <= hi + 1 <= |s|
    && (forall k :: lo <= k < l ==> Le(cmp, s[k], s[h]))
    && (forall k :: h <= k <= hi ==> Le(cmp, s[h], s[k]))
  }

  lemma {:induction false} PartsResolved<T(!new)>(cmp: (T, T) -> int, s: seq<T>, lo: nat, h: nat, l: nat, hi: nat)
    requires Preorder(cmp) && Split(cmp, s, lo, h, l, hi) && lo < hi
    ensures Resolved(cmp, s, Seg(lo, hi), Parts(lo, h, l, hi))
  {
    var q := Parts(lo, h, l, hi);
    PartsPending(lo, h, l, hi, |s|);
    forall i, j | lo <= i < j <= hi ensures Together(q, i, j) || Le(cmp, s[i], s[j]) {
      if j < h {
        assert Within(q, if h - lo > hi - l then 0 else |q| - 1, i, j);
      } else if i >= l {
        assert Within(q, if h - lo > hi - l then |q| - 1 else 0, i, j);
      } else {
        assert Le(cmp, s[i], s[h]) && Le(cmp, s[h], s[j]);
      }
    }
  }

  lemma {:induction false} AfterSplit<T(!new)>(cmp: (T, T) -> int, before: seq<T>, s: seq<T>, t: seq<T>, r: seq<Seg>, lo: nat, h: nat, l: nat, hi: nat)
    requires Preorder(cmp) && Working(cmp, before, s, r + [Seg(lo, hi)]) && lo < hi
    requires Permuted(s, t, lo, hi) && Split(cmp, t, lo, h, l, hi)
    ensures Working(cmp, before, t, r + Parts(lo, h, l, hi))
  {
    PartsResolved(cmp, t, lo, h, l, hi);
    Advance(cmp, s, t, r, Seg(lo, hi), Parts(lo, h, l, hi));
    PartsPending(lo, h, l, hi, |s|);
    AdvancePending(r, Seg(lo, hi), Parts(lo, h, l, hi), |s|);
    PartsHalving(r, lo, h, l, hi, |s|);
    PermutedWhole(s, t, lo, hi);
  }

  lemma {:induction false} AfterShort<T(!new)>(cmp: (T, T) -> int, before: seq<T>, s: seq<T>, t: seq<T>, r: seq<Seg>, seg: Seg)
    requires Working(cmp, before, s, r + [seg]) && Permuted(s, t, seg.lo, seg.hi) && Resolved(cmp, t, seg, [])
    ensures Working(cmp, before, t, r)
  {
    Advance(cmp, s, t, r, seg, []);
    AdvancePending(r, seg, [], |s|);
    HalvingPrefix(r + [seg], |r|, |s|);
    assert r + [] == r && (r + [seg])[..|r|] == r;
    PermutedWhole(s, t, seg.lo, seg.hi);
  }

  lemma {:induction false} WorkStarts<T(!new)>(cmp: (T, T) -> int, s: seq<T>)
    requires |s| >= 2
    ensures Working(cmp, s, s, [Seg(0, |s| - 1)])
  {
    var p := [Seg(0, |s| - 1)];
    forall i, j | 0 <= i < j < |s| ensures Together(p, i, j) {
      assert Within(p, 0, i, j);
    }
  }
}
