/**
 What every run of loads, failed loads and balanced unloads keeps: reference
 counts are exact, so no module that is still imported is ever removed.
 */
module ModuleRuns {
  import opened ImportResolution
  import opened ModuleDatabase

  /** An import descriptor: the importing module and the position in its table. */
  datatype Desc = Desc(importer: Name, k: int)

  /** d is a descriptor of a module in db. */
  ghost predicate Present(db: Db, d: Desc) {
    d.importer in db.mods && 0 <= d.k < |db.mods[d.importer].image.Deps()|
  }

  ghost function Target(db: Db, d: Desc): Name
    requires Present(db, d)
  {
    db.mods[d.importer].image.Deps()[d.k]
  }

  /** The descriptors of held that name n. */
  ghost function Pointing(db: Db, held: set<Desc>, n: Name): set<Desc> {
    set d | d in held && Present(db, d) && Target(db, d) == n
  }

  /** The descriptors of module m. */
  ghost function Own(db: Db, m: Name): set<Desc> {
    if m in db.mods then set k | 0 <= k < |db.mods[m].image.Deps()| :: Desc(m, k) else {}
  }

  /** The descriptors that are counted: those of every module whose imports have
      been counted, the root apart. */
  ghost function Counted(db: Db, root: Name): set<Desc> {
    set m, d | m in db.mods && m != root && db.mods[m].refed && d in Own(db, m) :: d
  }

  /** No held descriptor dangles. */
  ghost predicate Sound(db: Db, held: set<Desc>) {
    forall d :: d in held ==> Present(db, d) && Target(db, d) in db.mods
  }

  ghost function Due(db: Db, root: Name, explicit: multiset<Name>, held: set<Desc>, n: Name): int {
    explicit[n] + (if n == root then 1 else 0) + |Pointing(db, held, n)|
  }

  /** Every reference count is the number of explicit loads not yet given up plus
      the number of held descriptors naming the module; the root has one more. */
  ghost predicate Counts(db: Db, root: Name, explicit: multiset<Name>, held: set<Desc>) {
    forall n {:trigger Due(db, root, explicit, held, n)} ::
      n in db.mods ==> db.mods[n].refcnt == Due(db, root, explicit, held, n)
  }

  ghost predicate Exact(db: Db, root: Name, explicit: multiset<Name>, held: set<Desc>) {
    && Valid(db) && root in db.mods
    && (forall n {:trigger explicit[n]} :: explicit[n] > 0 ==> n in db.mods)
    && Sound(db, held)
    && Counts(db, root, explicit, held)
  }

  /** Modules being removed have count zero, all others are in use. */
  ghost predicate InUse(db: Db, dying: set<Name>) {
    forall n {:trigger db.mods[n]} :: n in db.mods ==> (db.mods[n].refcnt == 0 <==> n in dying) && db.mods[n].refcnt >= 0
  }

  /** Only counts change and only modules outside dying go away. */
  ghost predicate Shrinks(db: Db, db': Db, dying: set<Name>) {
    && db'.mods.Keys <= db.mods.Keys
    && (forall n {:trigger db'.mods[n]} :: n in db'.mods ==> db'.mods[n].(refcnt := db.mods[n].refcnt) == db.mods[n])
    && (forall n :: n in db.mods && n in dying ==> n in db'.mods)
    && (db.order != [] && db.order[0] in db'.mods ==> db'.order != [] && db'.order[0] == db.order[0])
  }

  ghost function StillHeld(db: Db, held: set<Desc>): set<Desc> {
    set d | d in held && d.importer in db.mods
  }

  lemma {:induction false} SamePointing(db: Db, db': Db, held: set<Desc>, n: Name)
    requires forall d :: d in held ==> d.importer in db.mods && d.importer in db'.mods
                                       && db'.mods[d.importer].image == db.mods[d.importer].image
    ensures Pointing(db', held, n) == Pointing(db, held, n)
  {
  }

  /** Giving up one held descriptor. */
  lemma {:induction false} DropOne(db: Db, root: Name, explicit: multiset<Name>, held: set<Desc>, d: Desc)
    requires Exact(db, root, explicit, held) && d in held
    ensures Exact(Bump(db, Target(db, d), -1), root, explicit, held - {d})
    ensures db.mods[Target(db, d)].refcnt >= (if Target(db, d) == root then 2 else 1)
  {
    var n := Target(db, d);
    var db' := Bump(db, n, -1);
    forall m ensures Due(db', root, explicit, held - {d}, m)
                     == Due(db, root, explicit, held, m) - (if m == n then 1 else 0)
    {
      DueAfterDrop(db, root, explicit, held, d, m);
    }
    assert d in Pointing(db, held, n);
    assert db.mods[n].refcnt == Due(db, root, explicit, held, n);
    SoundAfterBump(db, held, held - {d}, n);
  }

  lemma {:induction false} SoundAfterBump(db: Db, held: set<Desc>, held': set<Desc>, n: Name)
    requires Sound(db, held) && held' <= held && n in db.mods
    ensures Sound(Bump(db, n, -1), held')
  {
    var db' := Bump(db, n, -1);
    forall d | d in held' ensures Present(db', d) && Target(db', d) in db'.mods {
      assert db'.mods[d.importer].image == db.mods[d.importer].image;
    }
  }

  lemma {:induction false} LiveDrop(db: Db, n: Name)
    requires n in db.mods && db.mods[n].refcnt >= 1
    ensures Live(Bump(db, n, -1)) <= Live(db)
    ensures db.mods[n].refcnt == 1 ==> Live(Bump(db, n, -1)) < Live(db)
  {
    assert n in Live(db);
    assert db.mods[n].refcnt == 1 ==> n !in Live(Bump(db, n, -1));
  }

  lemma {:induction false} DueAfterDrop(db: Db, root: Name, explicit: multiset<Name>, held: set<Desc>, d: Desc, m: Name)
    requires Sound(db, held) && d in held
    ensures Due(Bump(db, Target(db, d), -1), root, explicit, held - {d}, m)
            == Due(db, root, explicit, held, m) - (if m == Target(db, d) then 1 else 0)
  {
    SamePointing(db, Bump(db, Target(db, d), -1), held - {d}, m);
    if m == Target(db, d) {
      assert Pointing(db, held - {d}, m) == Pointing(db, held, m) - {d};
    } else {
      assert Pointing(db, held - {d}, m) == Pointing(db, held, m);
    }
  }

  lemma {:induction false} DropOneFrame(db: Db, dying: set<Name>, n: Name)
    requires InUse(db, dying) && n in db.mods && db.mods[n].refcnt >= 1
    ensures Shrinks(db, Bump(db, n, -1), dying)
    ensures InUse(Bump(db, n, -1), if db.mods[n].refcnt == 1 then dying + {n} else dying)
  {
  }

  /** Unlinking a module that nothing refers to and that holds nothing. */
  lemma {:induction false} UnlinkExact(db: Db, root: Name, explicit: multiset<Name>, held: set<Desc>, n: Name)
    requires Exact(db, root, explicit, held)
    requires n in db.mods && n != root && db.mods[n].refcnt == 0
    requires forall d :: d in held ==> d.importer != n
    ensures Exact(Delete(db, n), root, explicit, held)
  {
    var db' := Delete(db, n);
    assert Due(db, root, explicit, held, n) == 0;
    assert Pointing(db, held, n) == {};
    forall d | d in held ensures Present(db', d) && Target(db', d) in db'.mods {
      assert d !in Pointing(db, held, n);
    }
    forall m | m in db'.mods
      ensures db'.mods[m].refcnt == Due(db', root, explicit, held, m)
    {
      assert db.mods[m].refcnt == Due(db, root, explicit, held, m);
      SamePointing(db, db', held, m);
    }
  }

  lemma {:induction false} UnlinkFrame(db: Db, dying: set<Name>, n: Name)
    requires Valid(db) && InUse(db, dying + {n}) && n !in dying
    ensures InUse(Delete(db, n), dying) && Shrinks(db, Delete(db, n), dying)
  {
    WithoutKeeps(db.order, n);
  }

  lemma {:induction false} ShrinksTransitive(a: Db, b: Db, c: Db, dying: set<Name>)
    requires Shrinks(a, b, dying) && Shrinks(b, c, dying)
    ensures Shrinks(a, c, dying)
  {
  }

  /** Outside dying, exactly the modules with counted imports hold descriptors,
      and they hold all of their own. */
  ghost predicate Claims(db: Db, root: Name, held: set<Desc>, dying: set<Name>) {
    && (forall n {:trigger Own(db, n)} :: n in db.mods && n !in dying && n != root && db.mods[n].refed ==> Own(db, n) <= held)
    && (forall d :: d in held && d.importer in db.mods && d.importer !in dying ==> db.mods[d.importer].refed)
  }

  lemma {:induction false} ClaimsShrink(db: Db, db': Db, root: Name, held: set<Desc>, held': set<Desc>, dying: set<Name>)
    requires Claims(db, root, held, dying) && Shrinks(db, db', dying)
    requires held' <= held
    requires forall d :: d in held && d.importer in db'.mods && d.importer !in dying ==> d in held'
    ensures Claims(db', root, held', dying)
  {
    forall n | n in db'.mods && n !in dying && n != root && db'.mods[n].refed ensures Own(db', n) <= held' {
      assert Own(db', n) == Own(db, n);
    }
  }

  /** The descriptors of m from position k on are still held. */
  ghost predicate Remaining(db: Db, held: set<Desc>, m: Name, k: nat) {
    && m in db.mods && k <= |db.mods[m].image.Deps()|
    && forall j :: 0 <= j < |db.mods[m].image.Deps()| ==> (Desc(m, j) in held <==> k <= j)
  }

  /** Giving up the descriptors of m from position k on. Everything that becomes
      unused is removed with its own descriptors, and the counts stay exact. */
  lemma {:induction false} ReleaseExact(db: Db, root: Name, explicit: multiset<Name>, held: set<Desc>, dying: set<Name>, m: Name, k: nat)
    requires Exact(db, root, explicit, held) && InUse(db, dying) && Claims(db, root, held, dying)
    requires root !in dying && m in dying && Remaining(db, held, m, k)
    ensures var db' := Release(db, db.mods[m].image.Deps()[k..]);
            && Exact(db', root, explicit, StillHeld(db', held) - Own(db, m))
            && InUse(db', dying) && Shrinks(db, db', dying)
    decreases Live(db), 0, |db.mods[m].image.Deps()| - k
  {
    var deps := db.mods[m].image.Deps();
    if k == |deps| {
      assert deps[k..] == [];
      NothingToGiveUp(db, held, m);
    } else {
      var n := deps[k];
      var d := Desc(m, k);
      assert deps[k..][0] == n && deps[k..][1..] == deps[k + 1..];
      assert Target(db, d) == n;
      DropOne(db, root, explicit, held, d);
      DropOneFrame(db, dying, n);
      LiveDrop(db, n);
      var db1 := Bump(db, n, -1);
      if db1.mods[n].refcnt == 0 {
        ClaimsShrink(db, db1, root, held, held - {d}, dying);
        RemoveExact(db1, root, explicit, held - {d}, dying, n);
        var db2 := Remove(db1, n);
        ShrinksTransitive(db, db1, db2, dying);
        var held2 := StillHeld(db2, held - {d});
        ClaimsShrink(db, db2, root, held, held2, dying);
        RemainingNext(db, db2, held, held2, dying, m, k);
        ReleaseExact(db2, root, explicit, held2, dying, m, k + 1);
        FinishRelease(db, db2, Release(db2, deps[k + 1..]), held, held2, dying, m, k);
      } else {
        ClaimsShrink(db, db1, root, held, held - {d}, dying);
        RemainingNext(db, db1, held, held - {d}, dying, m, k);
        ReleaseExact(db1, root, explicit, held - {d}, dying, m, k + 1);
        FinishRelease(db, db1, Release(db1, deps[k + 1..]), held, held - {d}, dying, m, k);
      }
    }
  }

  lemma {:induction false} RemainingNext(db: Db, db1: Db, held: set<Desc>, held1: set<Desc>, dying: set<Name>, m: Name, k: nat)
    requires Remaining(db, held, m, k) && k < |db.mods[m].image.Deps()| && m in dying
    requires Shrinks(db, db1, dying)
    requires held1 == StillHeld(db1, held - {Desc(m, k)}) || held1 == held - {Desc(m, k)}
    ensures Remaining(db1, held1, m, k + 1)
  {
  }

  lemma {:induction false} NothingToGiveUp(db: Db, held: set<Desc>, m: Name)
    requires Sound(db, held) && m in db.mods && Remaining(db, held, m, |db.mods[m].image.Deps()|)
    ensures StillHeld(db, held) - Own(db, m) == held
  {
  }

  lemma {:induction false} FinishRelease(db: Db, db1: Db, db2: Db, held: set<Desc>, held1: set<Desc>, dying: set<Name>, m: Name, k: nat)
    requires Remaining(db, held, m, k) && k < |db.mods[m].image.Deps()|
    requires Shrinks(db, db1, dying) && Shrinks(db1, db2, dying) && m in db1.mods
    requires held1 == StillHeld(db1, held - {Desc(m, k)}) || held1 == held - {Desc(m, k)}
    ensures Shrinks(db, db2, dying)
    ensures StillHeld(db2, held1) - Own(db1, m) == StillHeld(db2, held) - Own(db, m)
  {
    ShrinksTransitive(db, db1, db2, dying);
    assert Own(db1, m) == Own(db, m);
    assert Desc(m, k) in Own(db, m);
  }

  /** Removing a module whose count has dropped to zero. */
  lemma {:induction false} RemoveExact(db: Db, root: Name, explicit: multiset<Name>, held: set<Desc>, dying: set<Name>, n: Name)
    requires Exact(db, root, explicit, held) && InUse(db, dying + {n}) && Claims(db, root, held, dying)
    requires root !in dying && n in db.mods && n != root && n !in dying
    ensures var db' := Remove(db, n);
            && Exact(db', root, explicit, StillHeld(db', held))
            && InUse(db', dying) && Shrinks(db, db', dying)
    decreases Live(db), 1, 0
  {
    var deps := db.mods[n].image.Deps();
    if db.mods[n].refed {
      assert deps[0..] == deps;
      RemainingAll(db, root, held, dying, n);
      ReleaseExact(db, root, explicit, held, dying + {n}, n, 0);
      FinishRemove(db, Release(db, deps), root, explicit, held, dying, n);
    } else {
      UnlinkExact(db, root, explicit, held, n);
      UnlinkFrame(db, dying, n);
      assert StillHeld(Delete(db, n), held) == held;
    }
  }

  lemma {:induction false} FinishRemove(db: Db, db1: Db, root: Name, explicit: multiset<Name>, held: set<Desc>, dying: set<Name>, n: Name)
    requires Sound(db, held) && n in db.mods && n != root && n !in dying
    requires Exact(db1, root, explicit, StillHeld(db1, held) - Own(db, n))
    requires InUse(db1, dying + {n}) && Shrinks(db, db1, dying + {n})
    ensures Exact(Delete(db1, n), root, explicit, StillHeld(Delete(db1, n), held))
    ensures InUse(Delete(db1, n), dying) && Shrinks(db, Delete(db1, n), dying)
  {
    HoldsOnlyOwn(db, db1, held, n);
    UnlinkExact(db1, root, explicit, StillHeld(db1, held) - Own(db, n), n);
    UnlinkFrame(db1, dying, n);
    ShrinksLess(db, db1, dying, n);
    ShrinksTransitive(db, db1, Delete(db1, n), dying);
  }

  lemma {:induction false} RemainingAll(db: Db, root: Name, held: set<Desc>, dying: set<Name>, n: Name)
    requires Claims(db, root, held, dying) && n in db.mods && n != root && n !in dying && db.mods[n].refed
    ensures Remaining(db, held, n, 0) && Claims(db, root, held, dying + {n})
  {
    forall j | 0 <= j < |db.mods[n].image.Deps()| ensures Desc(n, j) in held {
      assert Desc(n, j) in Own(db, n);
    }
  }

  lemma {:induction false} HoldsOnlyOwn(db: Db, db1: Db, held: set<Desc>, n: Name)
    requires Sound(db, held) && Valid(db1) && n in db.mods
    ensures forall d :: d in StillHeld(db1, held) - Own(db, n) ==> d.importer != n
    ensures StillHeld(Delete(db1, n), held) == StillHeld(db1, held) - Own(db, n)
  {
    forall d | d in held && d.importer == n ensures d in Own(db, n) {
      assert Present(db, d);
      assert d == Desc(n, d.k);
    }
  }

  lemma {:induction false} ShrinksLess(db: Db, db': Db, dying: set<Name>, n: Name)
    requires Shrinks(db, db', dying + {n})
    ensures Shrinks(db, db', dying)
  {
  }

  // ---------- the removal of one module, descriptor by descriptor ----------

  /** What surrounds a removal: the root, the outstanding loads and the modules
      whose removal is under way. */
  datatype Around = Around(root: Name, explicit: multiset<Name>, dying: set<Name>)

  /** Module n can be removed: nothing refers to it. */
  ghost predicate Removable(db: Db, a: Around, held: set<Desc>, n: Name) {
    && n in db.mods && n != a.root && n !in a.dying && a.root !in a.dying
    && Exact(db, a.root, a.explicit, held) && Claims(db, a.root, held, a.dying)
    && InUse(db, a.dying + {n})
  }

  ghost predicate RootFirst(db: Db, a: Around) {
    db.order != [] && db.order[0] == a.root
  }

  /** The first k descriptors of n have been given up. */
  ghost predicate Releasing(db: Db, a: Around, held: set<Desc>, n: Name, k: nat) {
    && n in a.dying && a.root !in a.dying
    && Exact(db, a.root, a.explicit, held) && Claims(db, a.root, held, a.dying)
    && InUse(db, a.dying) && Remaining(db, held, n, k)
  }

  lemma {:induction false} ReleasingStart(db: Db, a: Around, held: set<Desc>, n: Name)
    requires Removable(db, a, held, n) && db.mods[n].refed
    ensures Releasing(db, a.(dying := a.dying + {n}), held, n, 0)
  {
    RemainingAll(db, a.root, held, a.dying, n);
  }

  /** The descriptor about to be given up names a module in the list; if its count
      drops to zero it can be removed. */
  lemma {:induction false} ReleasingDrop(db: Db, a: Around, held: set<Desc>, n: Name, k: nat)
    requires Releasing(db, a, held, n, k) && k < |db.mods[n].image.Deps()|
    ensures var d := db.mods[n].image.Deps()[k]; var held1 := held - {Desc(n, k)};
            && d in db.mods && Live(Bump(db, d, -1)) <= Live(db)
            && (db.mods[d].refcnt == 1 ==> Removable(Bump(db, d, -1), a, held1, d) && Live(Bump(db, d, -1)) < Live(db))
            && (db.mods[d].refcnt != 1 ==> Releasing(Bump(db, d, -1), a, held1, n, k + 1))
  {
    var d, held1 := db.mods[n].image.Deps()[k], held - {Desc(n, k)};
    assert Target(db, Desc(n, k)) == d;
    DropOne(db, a.root, a.explicit, held, Desc(n, k));
    DropOneFrame(db, a.dying, d);
    LiveDrop(db, d);
    var db1 := Bump(db, d, -1);
    ClaimsShrink(db, db1, a.root, held, held1, a.dying);
    RemainingNext(db, db1, held, held1, a.dying, n, k);
  }

  lemma {:induction false} ReleasingRemoved(db: Db, a: Around, held: set<Desc>, n: Name, k: nat)
    requires Releasing(db, a, held, n, k) && k < |db.mods[n].image.Deps()|
    requires db.mods[n].image.Deps()[k] in db.mods && db.mods[db.mods[n].image.Deps()[k]].refcnt == 1
    ensures var d := db.mods[n].image.Deps()[k];
            var db2 := Remove(Bump(db, d, -1), d);
            && Releasing(db2, a, StillHeld(db2, held - {Desc(n, k)}), n, k + 1)
            && db2.mods[n].image == db.mods[n].image && Live(db2) <= Live(db)
            && (RootFirst(db, a) ==> RootFirst(db2, a))
  {
    var d, held1 := db.mods[n].image.Deps()[k], held - {Desc(n, k)};
    ReleasingDrop(db, a, held, n, k);
    var db1 := Bump(db, d, -1);
    DropOneFrame(db, a.dying, d);
    RemoveExact(db1, a.root, a.explicit, held1, a.dying, d);
    var db2 := Remove(db1, d);
    ShrinksTransitive(db, db1, db2, a.dying);
    var held2 := StillHeld(db2, held1);
    ClaimsShrink(db, db2, a.root, held, held2, a.dying);
    RemainingNext(db, db2, held, held2, a.dying, n, k);
  }

  /** What giving up one reference to d leaves. */
  ghost function Dropped(db: Db, d: Name): (r: Db)
    requires Valid(db) && d in db.mods
    ensures Valid(r)
  {
    var db1 := Bump(db, d, -1);
    assert db1.mods.Keys == db.mods.Keys;
    if db1.mods[d].refcnt == 0 then Remove(db1, d) else db1
  }

  /** db has come out of db0 by giving up the first k descriptors of n. */
  ghost predicate Midway(db0: Db, db: Db, a: Around, held: set<Desc>, n: Name, deps: seq<Name>, k: nat) {
    && Valid(db0) && Releasing(db, a, held, n, k) && db.mods[n].image.Deps() == deps && RootFirst(db, a)
    && Release(db0, deps) == Release(db, deps[k..]) && Live(db) <= Live(db0)
  }

  lemma {:induction false} MidwayStep(db0: Db, db: Db, a: Around, held: set<Desc>, n: Name, deps: seq<Name>, k: nat) returns (held': set<Desc>)
    requires Midway(db0, db, a, held, n, deps, k) && k < |deps|
    ensures RootFirst(db, a) && deps[k] in db.mods && Live(db) <= Live(db0)
    ensures db.mods[deps[k]].refcnt == 1 ==>
              Removable(Bump(db, deps[k], -1), a, held - {Desc(n, k)}, deps[k]) && Live(Bump(db, deps[k], -1)) < Live(db)
    ensures Midway(db0, Dropped(db, deps[k]), a, held', n, deps, k + 1)
  {
    ReleasingDrop(db, a, held, n, k);
    ReleaseNext(db, deps, k);
    held' := held - {Desc(n, k)};
    if db.mods[deps[k]].refcnt == 1 {
      ReleasingRemoved(db, a, held, n, k);
      held' := StillHeld(Dropped(db, deps[k]), held');
    }
  }

  lemma {:induction false} MidwayDone(db0: Db, db: Db, a: Around, held: set<Desc>, n: Name, deps: seq<Name>)
    requires Midway(db0, db, a, held, n, deps, |deps|)
    ensures db == Release(db0, deps) && n in db.mods
  {
    assert deps[|deps|..] == [];
  }

  lemma {:induction false} ReleaseNext(db: Db, deps: seq<Name>, k: nat)
    requires Valid(db) && k < |deps| && deps[k] in db.mods
    ensures Release(db, deps[k..]) == Release(Dropped(db, deps[k]), deps[k + 1..])
  {
    assert deps[k..][0] == deps[k] && deps[k..][1..] == deps[k + 1..];
    assert Bump(db, deps[k], -1).mods.Keys == db.mods.Keys;
  }
}
