/**
 Safety of the module loader over whole runs: exact reference counts, no dangling
 import, exact rollback of failed loads, and complete release.
 */
module ModuleSafety {
  import opened ImportResolution
  import opened ModuleDatabase
  import opened ModuleRuns

  /** What holds between operations. */
  ghost predicate Inv(db: Db, root: Name, explicit: multiset<Name>) {
    && Exact(db, root, explicit, Counted(db, root))
    && InUse(db, {})
    && db.order != [] && db.order[0] == root
    && AllCounted(db, root)
  }

  ghost predicate AllCounted(db: Db, root: Name) {
    forall n :: n in db.mods && n != root && db.mods[n].image.hasImports ==> db.mods[n].refed
  }

  // ---------- runs ----------

  datatype Event = LoadEvent(lib: Library, env: Env, name: Name) | UnloadEvent(name: Name)

  /** explicit: the successful loads not yet balanced by an unload. */
  datatype State = State(db: Db, explicit: multiset<Name>)

  /** The database as set up with its initial module. */
  function Initial(root: Name, image: Image): State {
    State(Db([root], map[root := Mod(image, 1, true, true)]), multiset{})
  }

  /** Any load may be tried; only an outstanding load may be given up. */
  ghost predicate Enabled(s: State, e: Event) {
    Valid(s.db) && (e.UnloadEvent? ==> e.name in s.explicit && e.name in s.db.mods)
  }

  ghost function Step(s: State, e: Event): State
    requires Enabled(s, e)
  {
    match e
    case LoadEvent(lib, env, name) =>
      var r := Load(s.db, lib, env, name);
      State(r.db, if r.ok then s.explicit + multiset{name} else s.explicit)
    case UnloadEvent(name) =>
      State(Unload(s.db, name), s.explicit - multiset{name})
  }

  /** Some run of the given events leads from s to s'. */
  ghost predicate Runs(s: State, events: seq<Event>, s': State)
    decreases |events|
  {
    if events == [] then s' == s
    else Enabled(s, events[0]) && Runs(Step(s, events[0]), events[1..], s')
  }

  // ---------- unload ----------

  lemma {:induction false} ExplicitLess(db: Db, root: Name, explicit: multiset<Name>, held: set<Desc>, n: Name)
    requires Exact(db, root, explicit, held) && explicit[n] > 0
    ensures n in db.mods
    ensures Exact(Bump(db, n, -1), root, explicit - multiset{n}, held)
    ensures db.mods[n].refcnt >= (if n == root then 2 else 1)
  {
    var db' := Bump(db, n, -1);
    SoundAfterBump(db, held, held, n);
    assert db.mods[n].refcnt == Due(db, root, explicit, held, n);
    forall m | m in db'.mods ensures db'.mods[m].refcnt == Due(db', root, explicit - multiset{n}, held, m) {
      assert db.mods[m].refcnt == Due(db, root, explicit, held, m);
      SamePointing(db, db', held, m);
    }
  }

  lemma {:induction false} CountedAfterBump(db: Db, root: Name, n: Name, delta: int)
    requires n in db.mods
    ensures Counted(Bump(db, n, delta), root) == Counted(db, root)
  {
    var db' := Bump(db, n, delta);
    forall m ensures Own(db', m) == Own(db, m) {}
  }

  lemma {:induction false} ClaimsAtRest(db: Db, root: Name)
    ensures Claims(db, root, Counted(db, root), {})
  {
    forall n | n in db.mods && n != root && db.mods[n].refed ensures Own(db, n) <= Counted(db, root) {
    }
  }

  lemma {:induction false} CountedShrinks(db: Db, db': Db, root: Name)
    requires Shrinks(db, db', {})
    ensures StillHeld(db', Counted(db, root)) == Counted(db', root)
  {
    forall m | m in db'.mods ensures Own(db', m) == Own(db, m) {}
  }

  lemma {:induction false} UnloadKeepsInv(db: Db, root: Name, explicit: multiset<Name>, n: Name)
    requires Inv(db, root, explicit) && explicit[n] > 0
    ensures n in db.mods && Inv(Unload(db, n), root, explicit - multiset{n})
  {
    var held := Counted(db, root);
    ExplicitLess(db, root, explicit, held, n);
    var db1 := Bump(db, n, -1);
    CountedAfterBump(db, root, n, -1);
    DropOneFrame(db, {}, n);
    if db1.mods[n].refcnt == 0 {
      ClaimsAtRest(db1, root);
      RemoveExact(db1, root, explicit - multiset{n}, held, {}, n);
      CountedShrinks(db1, Remove(db1, n), root);
    }
  }

  lemma {:induction false} UnloadRemovable(db: Db, root: Name, explicit: multiset<Name>, n: Name)
    requires Inv(db, root, explicit) && explicit[n] > 0
    ensures n in db.mods && db.mods[n].refcnt > 0
    ensures var db1 := Bump(db, n, -1); var a := Around(root, explicit - multiset{n}, {});
            db.mods[n].refcnt == 1 ==> RootFirst(db1, a) && Removable(db1, a, Counted(db1, root), n)
  {
    ExplicitLess(db, root, explicit, Counted(db, root), n);
    var db1 := Bump(db, n, -1);
    CountedAfterBump(db, root, n, -1);
    DropOneFrame(db, {}, n);
    ClaimsAtRest(db1, root);
  }

  // ---------- failed loads ----------

  /** db' is db with the modules of run linked in behind it, not counted anywhere. */
  ghost predicate Extends(db: Db, db': Db, run: seq<Name>) {
    && db'.order == db.order + run
    && db'.mods.Keys == db.mods.Keys + Elements(run)
    && (forall n :: n in db.mods ==> n !in run && db'.mods[n] == db.mods[n])
    && (forall n :: n in run ==> n in db'.mods && db'.mods[n].refcnt == 0 && !db'.mods[n].refed)
  }

  /** The sweep removes exactly the modules of the failed load. */
  lemma {:induction false} SweepRestores(db: Db, db': Db, run: seq<Name>)
    requires Valid(db) && Valid(db') && InUse(db, {}) && Extends(db, db', run)
    ensures FreeUnused(db') == db
    decreases |run|
  {
    forall k | 0 <= k < |db.order| ensures db'.order[k] in db.mods && db'.mods[db'.order[k]].refcnt != 0 {
      assert db.order[k] in Elements(db.order);
      assert db.mods[db.order[k]].refcnt >= 0;
    }
    if run == [] {
      assert db'.mods == db.mods;
      assert forall i: nat :: !FirstUnused(db', i);
    } else {
      var z := |db.order|;
      assert db'.order[z] == run[0];
      assert FirstUnused(db', z);
      assert forall i: nat :: FirstUnused(db', i) ==> i == z;
      var db'' := Remove(db', run[0]);
      WithoutAt(db'.order, z);
      assert db''.order == db.order + run[1..];
      SweepStep(db, db', run, db'');
      SweepRestores(db, db'', run[1..]);
    }
  }

  lemma {:induction false} SweepStep(db: Db, db': Db, run: seq<Name>, db'': Db)
    requires Valid(db') && Extends(db, db', run) && run != []
    requires db''.order == db.order + run[1..] && db''.mods == db'.mods - {run[0]}
    ensures Extends(db, db'', run[1..])
  {
    forall i | 1 <= i < |run| ensures run[i] != run[0] {
      SamePlace(db'.order, |db.order| + i, |db.order|);
    }
    forall n | n in Elements(run) && n != run[0] ensures n in Elements(run[1..]) {
      var i :| 0 <= i < |run| && run[i] == n;
      assert run[1..][i - 1] == n;
    }
  }

  /** Unused modules hold no references, and the root is in use. */
  ghost predicate Sweepable(db: Db) {
    && Valid(db) && db.order != [] && db.order[0] in db.mods && db.mods[db.order[0]].refcnt != 0
    && forall n :: n in db.mods && db.mods[n].refcnt == 0 ==> !db.mods[n].refed
  }

  /** The sweep of db0 has come to db and has found the first i modules in use. */
  ghost predicate Sweeping(db0: Db, db: Db, i: nat) {
    && Valid(db0) && Sweepable(db) && FreeUnused(db) == FreeUnused(db0)
    && i <= |db.order| && forall k :: 0 <= k < i ==> InDb(db, k) && db.mods[db.order[k]].refcnt != 0
  }

  lemma {:induction false} SweepingStep(db0: Db, db: Db, i: nat)
    requires Sweeping(db0, db, i) && i < |db.order| && db.order[i] in db.mods
    ensures db.mods[db.order[i]].refcnt == 0 ==>
              && Sweeping(db0, Remove(db, db.order[i]), 0) && Remove(db, db.order[i]).mods.Keys < db.mods.Keys
              && !db.mods[db.order[i]].refed && i > 0
    ensures db.mods[db.order[i]].refcnt != 0 ==> Sweeping(db0, db, i + 1)
  {
    if db.mods[db.order[i]].refcnt == 0 {
      SweepNext(db, i);
    } else {
      assert InDb(db, i);
    }
  }

  lemma {:induction false} SweepingDone(db0: Db, db: Db)
    requires Sweeping(db0, db, |db.order|)
    ensures db == FreeUnused(db0)
  {
    SweepEnd(db);
  }

  lemma {:induction false} SweepNext(db: Db, i: nat)
    requires Sweepable(db) && FirstUnused(db, i)
    ensures FreeUnused(db) == FreeUnused(Remove(db, db.order[i])) && Sweepable(Remove(db, db.order[i]))
    ensures Remove(db, db.order[i]).mods.Keys < db.mods.Keys
  {
    assert forall j: nat :: FirstUnused(db, j) ==> j == i;
    WithoutKeeps(db.order, db.order[i]);
    assert db.order[0] != db.order[i];
  }

  lemma {:induction false} SweepEnd(db: Db)
    requires Sweepable(db) && forall i :: 0 <= i < |db.order| ==> InDb(db, i) && db.mods[db.order[i]].refcnt != 0
    ensures FreeUnused(db) == db
  {
    assert forall i: nat :: !FirstUnused(db, i);
  }

  lemma {:induction false} ExtendsSweepable(db: Db, db': Db, run: seq<Name>)
    requires Valid(db') && Extends(db, db', run) && InUse(db, {}) && db.order != [] && db.order[0] in db.mods
    ensures Sweepable(db')
  {
  }

  lemma {:induction false} LinkExtends(db: Db, lib: Library, run: seq<Name>)
    requires forall n :: n in run ==> n in lib && n !in db.mods
    ensures Extends(db, Link(db, lib, run), run)
  {
  }

  lemma {:induction false} AttachExtends(db: Db, linked: Db, run: seq<Name>, env: Env, main: Name)
    requires Extends(db, linked, run)
    ensures Extends(db, Attach(linked, run, env, main).db, run)
  {
    var r := Attach(linked, run, env, main).db;
    forall n | n in linked.mods ensures (n in db.mods ==> r.mods[n] == db.mods[n]) && (n in run ==> r.mods[n].refcnt == 0 && !r.mods[n].refed) {
      AttachFrame(linked, run, env, main, n);
    }
  }

  /** A load that fails, wherever it fails, leaves the list and every count as
      they were. */
  lemma {:induction false} FailedLoadRestores(db: Db, root: Name, explicit: multiset<Name>, lib: Library, env: Env, name: Name)
    requires Inv(db, root, explicit) && !Load(db, lib, env, name).ok
    ensures Load(db, lib, env, name).db == db
  {
    if name !in db.mods && name in lib {
      var run := RunOf(db, lib, name);
      var linked := Link(db, lib, run);
      LinkValid(db, lib, run);
      LinkExtends(db, lib, run);
      SweepRestores(db, linked, run);
      AttachExtends(db, linked, run, env, name);
      SweepRestores(db, Attach(linked, run, env, name).db, run);
    }
  }

  // ---------- successful loads ----------

  lemma {:induction false} ExplicitMore(db: Db, root: Name, explicit: multiset<Name>, held: set<Desc>, n: Name)
    requires Exact(db, root, explicit, held) && n in db.mods
    ensures Exact(Bump(db, n, 1), root, explicit + multiset{n}, held)
  {
    var db' := Bump(db, n, 1);
    assert Sound(db', held) by {
      forall d | d in held ensures Present(db', d) && Target(db', d) in db'.mods {
        assert db'.mods[d.importer].image == db.mods[d.importer].image;
      }
    }
    forall m | m in db'.mods ensures db'.mods[m].refcnt == Due(db', root, explicit + multiset{n}, held, m) {
      assert db.mods[m].refcnt == Due(db, root, explicit, held, m);
      SamePointing(db, db', held, m);
    }
  }

  /** The descriptors of m naming n, among the first j. */
  ghost function Naming(deps: seq<Name>, m: Name, n: Name, j: nat): set<Desc>
    requires j <= |deps|
  {
    set k | 0 <= k < j && deps[k] == n :: Desc(m, k)
  }

  lemma {:induction false} NamingCount(deps: seq<Name>, m: Name, n: Name, j: nat)
    requires j <= |deps|
    ensures |Naming(deps, m, n, j)| == multiset(deps[..j])[n]
  {
    if j == 0 {
      assert Naming(deps, m, n, j) == {};
    } else {
      NamingCount(deps, m, n, j - 1);
      assert deps[..j] == deps[..j - 1] + [deps[j - 1]];
      if deps[j - 1] == n {
        assert Naming(deps, m, n, j) == Naming(deps, m, n, j - 1) + {Desc(m, j - 1)};
      } else {
        assert Naming(deps, m, n, j) == Naming(deps, m, n, j - 1);
      }
    }
  }

  /** One module has as many descriptors naming n as n occurs in its table. */
  lemma {:induction false} OwnCount(db: Db, m: Name, n: Name)
    requires m in db.mods
    ensures |Pointing(db, Own(db, m), n)| == multiset(db.mods[m].image.Deps())[n]
  {
    var deps := db.mods[m].image.Deps();
    NamingCount(deps, m, n, |deps|);
    assert deps[..|deps|] == deps;
    assert Naming(deps, m, n, |deps|) == Pointing(db, Own(db, m), n);
  }

  /** n still has to be counted, and all it imports is there. */
  ghost predicate ToCount(db: Db, root: Name, n: Name) {
    && n in db.mods && n != root && !db.mods[n].refed && db.mods[n].image.hasImports
    && forall d :: d in db.mods[n].image.Deps() ==> d in db.mods
  }

  lemma {:induction false} UpdateFrame(db: Db, n: Name, m: Name)
    requires n in db.mods && m in db.mods
    ensures var r := UpdateRefcount(db, n).mods[m];
            && r.image == db.mods[m].image && r.refcnt >= db.mods[m].refcnt
            && (r.refed <==> db.mods[m].refed || (m == n && db.mods[m].image.hasImports))
  {
    if !(db.mods[n].refed || !db.mods[n].image.hasImports) {
      CountInAdds(db, db.mods[n].image.imports, m);
    }
  }

  lemma {:induction false} CountedAfterUpdate(db: Db, root: Name, n: Name)
    requires ToCount(db, root, n)
    ensures Counted(UpdateRefcount(db, n), root) == Counted(db, root) + Own(db, n)
    ensures Counted(db, root) !! Own(db, n)
  {
    var db' := UpdateRefcount(db, n);
    forall m ensures Own(db', m) == Own(db, m) && (m in db.mods ==> (db'.mods[m].refed <==> db.mods[m].refed || m == n)) {
      if m in db.mods {
        UpdateFrame(db, n, m);
      }
    }
  }

  lemma {:induction false} SoundAfterUpdate(db: Db, root: Name, held: set<Desc>, n: Name)
    requires ToCount(db, root, n) && Sound(db, held)
    ensures Sound(UpdateRefcount(db, n), held + Own(db, n))
  {
    var db' := UpdateRefcount(db, n);
    forall d | d in held + Own(db, n) ensures Present(db', d) && Target(db', d) in db'.mods {
      UpdateFrame(db, n, d.importer);
    }
  }

  lemma {:induction false} DueAfterUpdate(db: Db, root: Name, explicit: multiset<Name>, held: set<Desc>, n: Name, m: Name)
    requires ToCount(db, root, n) && held !! Own(db, n) && Sound(db, held)
    ensures Due(UpdateRefcount(db, n), root, explicit, held + Own(db, n), m)
            == Due(db, root, explicit, held, m) + multiset(db.mods[n].image.Deps())[m]
  {
    OwnCount(db, n, m);
    forall k | k in db.mods ensures UpdateRefcount(db, n).mods[k].image == db.mods[k].image {
      UpdateFrame(db, n, k);
    }
    SamePointing(db, UpdateRefcount(db, n), held + Own(db, n), m);
    assert Pointing(db, held + Own(db, n), m) == Pointing(db, held, m) + Pointing(db, Own(db, n), m);
  }

  /** After counting in the imports of n, exactly its descriptors are added. */
  lemma {:induction false} UpdateExact(db: Db, root: Name, explicit: multiset<Name>, n: Name)
    requires Exact(db, root, explicit, Counted(db, root)) && ToCount(db, root, n)
    ensures Exact(UpdateRefcount(db, n), root, explicit, Counted(UpdateRefcount(db, n), root))
  {
    var db', held := UpdateRefcount(db, n), Counted(db, root);
    CountedAfterUpdate(db, root, n);
    SoundAfterUpdate(db, root, held, n);
    forall m | m in db'.mods ensures db'.mods[m].refcnt == Due(db', root, explicit, held + Own(db, n), m) {
      assert db.mods[m].refcnt == Due(db, root, explicit, held, m);
      DueAfterUpdate(db, root, explicit, held, n, m);
      CountInAdds(db, db.mods[n].image.imports, m);
    }
  }

  /** Only counts and the flags of the modules in run differ. */
  ghost predicate CountedIn(db: Db, r: Db, run: seq<Name>) {
    && r.order == db.order && r.mods.Keys == db.mods.Keys
    && forall n :: n in db.mods ==>
         && r.mods[n].image == db.mods[n].image && r.mods[n].refcnt >= db.mods[n].refcnt
         && (r.mods[n].refed <==> db.mods[n].refed || (n in run && db.mods[n].image.hasImports))
  }

  lemma {:induction false} CountedInStep(db: Db, r: Db, run: seq<Name>)
    requires run != [] && run[0] in db.mods && CountedIn(UpdateRefcount(db, run[0]), r, run[1..])
    ensures CountedIn(db, r, run)
  {
    forall n | n in db.mods
      ensures && r.mods[n].image == db.mods[n].image && r.mods[n].refcnt >= db.mods[n].refcnt
              && (r.mods[n].refed <==> db.mods[n].refed || (n in run && db.mods[n].image.hasImports))
    {
      UpdateFrame(db, run[0], n);
    }
  }

  ghost predicate Importable(db: Db, root: Name, run: seq<Name>) {
    forall n :: n in run ==> n in db.mods && n != root && forall d :: d in db.mods[n].image.Deps() ==> d in db.mods
  }

  /** Counting in a whole run keeps the counts exact; every module of the run with
      an import directory ends up counted. */
  lemma {:induction false} UpdateAllExact(db: Db, root: Name, explicit: multiset<Name>, run: seq<Name>)
    requires Exact(db, root, explicit, Counted(db, root)) && Importable(db, root, run)
    ensures var r := UpdateAll(db, run);
            Exact(r, root, explicit, Counted(r, root)) && CountedIn(db, r, run)
    decreases |run|
  {
    if run != [] {
      var db1 := UpdateRefcount(db, run[0]);
      if ToCount(db, root, run[0]) {
        UpdateExact(db, root, explicit, run[0]);
      }
      forall n | n in run[1..]
        ensures n in db1.mods && n != root && forall d :: d in db1.mods[n].image.Deps() ==> d in db1.mods
      {
        UpdateFrame(db, run[0], n);
      }
      UpdateAllExact(db1, root, explicit, run[1..]);
      CountedInStep(db, UpdateAll(db, run), run);
    }
  }

  /** The run of a successful load is closed under imports. */
  lemma {:induction false} RunClosed(db: Db, lib: Library, name: Name)
    requires name in lib && name !in db.mods
    requires Resolve(lib, db.mods.Keys + {name}, lib[name].Deps()).ok
    ensures var run := RunOf(db, lib, name);
            forall n, d :: n in run && d in lib[n].Deps() ==> d in db.mods || d in run
  {
    ResolveClosed(lib, db.mods.Keys + {name}, lib[name].Deps());
  }

  /** Everything in the run but the loaded module is imported by something in it. */
  lemma {:induction false} RunImported(db: Db, lib: Library, name: Name, n: Name) returns (m: Name)
    requires name in lib && name !in db.mods
    requires Resolve(lib, db.mods.Keys + {name}, lib[name].Deps()).ok
    requires n in RunOf(db, lib, name) && n != name
    ensures m in RunOf(db, lib, name) && n in lib[m].Deps()
  {
    var have := db.mods.Keys + {name};
    ResolveImported(lib, have, lib[name].Deps(), n);
    if n in lib[name].Deps() {
      m := name;
    } else {
      m :| m in Resolve(lib, have, lib[name].Deps()).added && Imports(lib, m, n);
    }
  }

  /** Linking in uncounted modules keeps the counts exact. */
  lemma {:induction false} ExtendExact(db: Db, db': Db, root: Name, explicit: multiset<Name>, run: seq<Name>)
    requires Exact(db, root, explicit, Counted(db, root)) && Valid(db') && Extends(db, db', run)
    ensures Exact(db', root, explicit, Counted(db', root))
  {
    var held := Counted(db, root);
    assert Counted(db', root) == held by {
      forall m | m in db.mods ensures Own(db', m) == Own(db, m) {}
    }
    forall n | n in db'.mods ensures db'.mods[n].refcnt == Due(db', root, explicit, held, n) {
      SamePointing(db, db', held, n);
      if n in db.mods {
        assert db.mods[n].refcnt == Due(db, root, explicit, held, n);
      } else {
        assert explicit[n] == 0;
        assert Pointing(db, held, n) == {};
      }
    }
  }

  /** A counted descriptor naming n makes the count of n positive. */
  lemma {:induction false} ImportedInUse(db: Db, root: Name, explicit: multiset<Name>, m: Name, n: Name)
    requires Exact(db, root, explicit, Counted(db, root)) && n in db.mods
    requires m in db.mods && m != root && db.mods[m].refed && n in db.mods[m].image.Deps()
    ensures db.mods[n].refcnt > 0
  {
    var k :| 0 <= k < |db.mods[m].image.Deps()| && db.mods[m].image.Deps()[k] == n;
    var d := Desc(m, k);
    assert d in Own(db, m);
    assert d in Pointing(db, Counted(db, root), n);
    assert db.mods[n].refcnt == Due(db, root, explicit, Counted(db, root), n);
  }

  /** The database right before the imports of the new run are counted. */
  ghost function Entered(db: Db, lib: Library, env: Env, name: Name): Db
    requires Valid(db) && name !in db.mods && name in lib
  {
    Bump(Attach(Link(db, lib, RunOf(db, lib, name)), RunOf(db, lib, name), env, name).db, name, 1)
  }

  lemma {:induction false} EnteredExact(db: Db, root: Name, explicit: multiset<Name>, lib: Library, env: Env, name: Name)
    requires Inv(db, root, explicit) && name !in db.mods && name in lib
    ensures var e := Entered(db, lib, env, name);
            Exact(e, root, explicit + multiset{name}, Counted(e, root))
  {
    var run := RunOf(db, lib, name);
    var linked := Link(db, lib, run);
    LinkValid(db, lib, run);
    LinkExtends(db, lib, run);
    var attached := Attach(linked, run, env, name).db;
    AttachExtends(db, linked, run, env, name);
    ExtendExact(db, attached, root, explicit, run);
    ExplicitMore(attached, root, explicit, Counted(attached, root), name);
    CountedAfterBump(attached, root, name, 1);
  }

  lemma {:induction false} EnteredMods(db: Db, lib: Library, env: Env, name: Name)
    requires Valid(db) && name !in db.mods && name in lib
    ensures var e, run := Entered(db, lib, env, name), RunOf(db, lib, name);
            && e.order == db.order + run
            && e.mods.Keys == db.mods.Keys + Elements(run)
            && (forall n :: n in db.mods ==> e.mods[n] == db.mods[n])
            && (forall n :: n in run ==> n in e.mods && e.mods[n].image == lib[n])
            && e.mods[name].refcnt == 1
  {
    var run := RunOf(db, lib, name);
    var linked := Link(db, lib, run);
    LinkExtends(db, lib, run);
    AttachExtends(db, linked, run, env, name);
    var attached := Attach(linked, run, env, name).db;
    forall n | n in run ensures attached.mods[n].image == lib[n] {
      AttachFrame(linked, run, env, name, n);
    }
  }

  lemma {:induction false} LoadNewKeepsInv(db: Db, root: Name, explicit: multiset<Name>, lib: Library, env: Env, name: Name)
    requires Inv(db, root, explicit) && name !in db.mods && name in lib
    requires LoadNew(db, lib, env, name).ok
    ensures Inv(LoadNew(db, lib, env, name).db, root, explicit + multiset{name})
    ensures LoadNew(db, lib, env, name).db.order == db.order + RunOf(db, lib, name)
  {
    var run := RunOf(db, lib, name);
    var e := Entered(db, lib, env, name);
    EnteredExact(db, root, explicit, lib, env, name);
    EnteredMods(db, lib, env, name);
    RunClosed(db, lib, name);
    assert Importable(e, root, run);
    UpdateAllExact(e, root, explicit + multiset{name}, run);
    LoadedInUse(db, root, explicit, lib, name, e, UpdateAll(e, run));
  }

  lemma {:induction false} LoadedInUse(db: Db, root: Name, explicit: multiset<Name>, lib: Library, name: Name, bumped: Db, r: Db)
    requires Inv(db, root, explicit) && name !in db.mods && name in lib
    requires Resolve(lib, db.mods.Keys + {name}, lib[name].Deps()).ok
    requires bumped.mods.Keys == db.mods.Keys + Elements(RunOf(db, lib, name))
    requires forall n :: n in db.mods ==> bumped.mods[n] == db.mods[n]
    requires forall n :: n in RunOf(db, lib, name) ==> n in bumped.mods && bumped.mods[n].image == lib[n]
    requires name in bumped.mods && bumped.mods[name].refcnt == 1
    requires CountedIn(bumped, r, RunOf(db, lib, name))
    requires Exact(r, root, explicit + multiset{name}, Counted(r, root))
    ensures InUse(r, {}) && AllCounted(r, root)
  {
    var run := RunOf(db, lib, name);
    forall n | n in r.mods ensures r.mods[n].refcnt > 0 && (n != root && r.mods[n].image.hasImports ==> r.mods[n].refed) {
      if n in db.mods {
        assert r.mods[n].refcnt >= db.mods[n].refcnt;
      } else if n != name {
        var m := RunImported(db, lib, name, n);
        ImportedInUse(r, root, explicit + multiset{name}, m, n);
      }
    }
  }

  lemma {:induction false} LoadKeepsInv(db: Db, root: Name, explicit: multiset<Name>, lib: Library, env: Env, name: Name)
    requires Inv(db, root, explicit)
    ensures var r := Load(db, lib, env, name);
            Inv(r.db, root, if r.ok then explicit + multiset{name} else explicit)
  {
    if !Load(db, lib, env, name).ok {
      FailedLoadRestores(db, root, explicit, lib, env, name);
    } else if name in db.mods {
      ExplicitMore(db, root, explicit, Counted(db, root), name);
      CountedAfterBump(db, root, name, 1);
    } else {
      LoadNewKeepsInv(db, root, explicit, lib, env, name);
    }
  }

  // ---------- the theorems over whole runs ----------

  lemma {:induction false} InitialInv(root: Name, image: Image)
    ensures var s := Initial(root, image); Inv(s.db, root, s.explicit)
  {
    var s := Initial(root, image);
    assert [root][0] in Elements([root]);
    assert Counted(s.db, root) == {};
    assert Pointing(s.db, {}, root) == {};
  }

  lemma {:induction false} RunKeepsInv(root: Name, s: State, events: seq<Event>, s': State)
    requires Inv(s.db, root, s.explicit) && Runs(s, events, s')
    ensures Inv(s'.db, root, s'.explicit)
    decreases |events|
  {
    if events != [] {
      match events[0] {
        case LoadEvent(lib, env, name) => LoadKeepsInv(s.db, root, s.explicit, lib, env, name);
        case UnloadEvent(name) => UnloadKeepsInv(s.db, root, s.explicit, name);
      }
      RunKeepsInv(root, Step(s, events[0]), events[1..], s');
    }
  }

  /** In every reachable state each count is the number of outstanding explicit
      loads plus the number of counted import descriptors naming the module. */
  lemma {:induction false} CountsExact(root: Name, image: Image, events: seq<Event>, s: State, n: Name)
    requires Runs(Initial(root, image), events, s) && n in s.db.mods
    ensures s.db.mods[n].refcnt == s.explicit[n] + (if n == root then 1 else 0)
                                   + |Pointing(s.db, Counted(s.db, root), n)|
    ensures s.db.mods[n].refcnt > 0
  {
    InitialInv(root, image);
    RunKeepsInv(root, Initial(root, image), events, s);
    assert s.db.mods[n].refcnt == Due(s.db, root, s.explicit, Counted(s.db, root), n);
  }

  /** In every reachable state everything a loaded module imports is loaded, and
      so is every module with an outstanding load. */
  lemma {:induction false} NoDanglingImport(root: Name, image: Image, events: seq<Event>, s: State)
    requires Runs(Initial(root, image), events, s)
    ensures forall n, d :: n in s.db.mods && n != root && d in s.db.mods[n].image.Deps() ==> d in s.db.mods
    ensures forall n :: n in s.explicit ==> n in s.db.mods
    ensures Distinct(s.db.order) && Elements(s.db.order) == s.db.mods.Keys
  {
    InitialInv(root, image);
    RunKeepsInv(root, Initial(root, image), events, s);
    forall n, d | n in s.db.mods && n != root && d in s.db.mods[n].image.Deps() ensures d in s.db.mods {
      var deps := s.db.mods[n].image.Deps();
      var k :| 0 <= k < |deps| && deps[k] == d;
      assert Desc(n, k) in Own(s.db, n);
      assert Desc(n, k) in Counted(s.db, root);
      assert Target(s.db, Desc(n, k)) == d;
    }
    forall n | n in s.explicit ensures n in s.db.mods {
      assert s.explicit[n] > 0;
    }
  }

  // ---------- releasing everything ----------

  /** The import graph of the modules in the list. */
  ghost function LoadedGraph(db: Db): Library {
    map n | n in db.mods :: db.mods[n].image
  }

  lemma {:induction false} ImporterOf(db: Db, root: Name, n: Name) returns (m: Name)
    requires Inv(db, root, multiset{}) && n in db.mods && n != root
    ensures m in db.mods && m != root && Imports(LoadedGraph(db), m, n)
  {
    var held := Counted(db, root);
    assert db.mods[n].refcnt == Due(db, root, multiset{}, held, n);
    assert db.mods[n].refcnt > 0;
    var d :| d in Pointing(db, held, n);
    m := d.importer;
  }

  lemma {:induction false} DistinctSize(p: seq<Name>, s: set<Name>)
    requires Distinct(p) && forall i :: 0 <= i < |p| ==> p[i] in s
    ensures |p| <= |s|
    decreases |p|
  {
    if p != [] {
      var last := |p| - 1;
      forall i, j | 0 <= i < j < last ensures Apart(p[..last], i, j) {
        assert Apart(p, i, j);
      }
      forall i | 0 <= i < last ensures p[..last][i] in s - {p[last]} {
        assert Apart(p, i, last);
      }
      DistinctSize(p[..last], s - {p[last]});
    }
  }

  /** A cycle of imports among the modules of a graph. */
  ghost predicate Cycle(lib: Library, c: seq<Name>) {
    ImportPath(lib, c) && |c| >= 2 && c[0] == c[|c| - 1]
  }

  /** Following importers back from a module that nobody loaded explicitly never
      ends: some cycle of modules other than the root imports it, by way of a path
      that starts on the cycle. */
  lemma {:induction false} EndlessImporters(db: Db, root: Name, p: seq<Name>) returns (c: seq<Name>, path: seq<Name>)
    requires Inv(db, root, multiset{}) && ImportPath(LoadedGraph(db), p)
    requires Distinct(p) && forall i :: 0 <= i < |p| ==> p[i] in db.mods && p[i] != root
    ensures Cycle(LoadedGraph(db), c) && root !in c
    ensures ImportPath(LoadedGraph(db), path) && path[0] == c[0] && path[|path| - 1] == p[|p| - 1] && root !in path
    decreases |db.mods.Keys| + 1 - |p|
  {
    var m := ImporterOf(db, root, p[0]);
    var q := [m] + p;
    forall i, j | 0 <= i < |q| - 1 && j == i + 1 ensures Imports(LoadedGraph(db), q[i], q[j]) {
      if i > 0 {
        assert Imports(LoadedGraph(db), p[i - 1], p[j - 1]);
      }
    }
    if m in p {
      var k :| 0 <= k < |p| && p[k] == m;
      c, path := q[..k + 2], q;
      assert ImportPath(LoadedGraph(db), c);
    } else {
      assert Distinct([m]);
      DistinctJoin([m], p);
      DistinctSize(q, db.mods.Keys);
      c, path := EndlessImporters(db, root, q);
    }
  }

  /** When all explicit loads have been given up and the loaded modules do not
      import each other in a cycle, only the root is left. */
  lemma {:induction false} ReleaseAllLeavesRoot(root: Name, image: Image, events: seq<Event>, s: State)
    requires Runs(Initial(root, image), events, s)
    requires s.explicit == multiset{} && !HasCycle(LoadedGraph(s.db))
    ensures s.db.order == [root] && s.db.mods.Keys == {root}
  {
    InitialInv(root, image);
    RunKeepsInv(root, Initial(root, image), events, s);
    var db := s.db;
    if n :| n in db.mods && n != root {
      var c, path := EndlessImporters(db, root, [n]);
      assert false;
    }
    assert db.mods.Keys == {root};
    OnlyRoot(db, root);
  }

  lemma {:induction false} OnlyRoot(db: Db, root: Name)
    requires Valid(db) && db.order != [] && db.order[0] == root && db.mods.Keys == {root}
    ensures db.order == [root]
  {
    if |db.order| > 1 {
      assert db.order[1] in Elements(db.order);
      SamePlace(db.order, 0, 1);
      assert false;
    }
  }

  // ---------- what a load brings in ----------

  /** A successful load of a new module appends one run to the list: first exactly
      the modules transitively imported that were missing, each once, then the
      module itself; with acyclic imports every module comes after its imports. */
  lemma {:induction false} LoadAppendsRun(db: Db, root: Name, explicit: multiset<Name>, lib: Library, env: Env, name: Name)
    requires Inv(db, root, explicit) && name !in db.mods && Load(db, lib, env, name).ok
    ensures name in lib
    ensures var run := RunOf(db, lib, name); var have := db.mods.Keys + {name};
            && Load(db, lib, env, name).db.order == db.order + run
            && (forall n :: n in run <==> n == name || Reached(lib, have, lib[name].Deps(), n))
            && (!HasCycle(lib) ==> DependenciesFirst(lib, db.mods.Keys, run))
  {
    var run, have, deps := RunOf(db, lib, name), db.mods.Keys + {name}, lib[name].Deps();
    LoadNewKeepsInv(db, root, explicit, lib, env, name);
    ResolveExact(lib, have, deps);
    if !HasCycle(lib) {
      RunInOrder(db, lib, name);
    }
  }

  lemma {:induction false} RunInOrder(db: Db, lib: Library, name: Name)
    requires name in lib && name !in db.mods && !HasCycle(lib)
    requires Resolve(lib, db.mods.Keys + {name}, lib[name].Deps()).ok
    ensures DependenciesFirst(lib, db.mods.Keys, RunOf(db, lib, name))
  {
    var have, deps := db.mods.Keys + {name}, lib[name].Deps();
    var added := Resolve(lib, have, deps).added;
    ResolveInDependencyOrder(lib, have, deps);
    ResolveSound(lib, have, deps);
    ResolveClosed(lib, have, deps);
    forall i | 0 <= i < |added| && added[i] in lib ensures name !in lib[added[i]].Deps() {
      NoWayBack(lib, have, name, added[i]);
    }
    DropImporter(lib, db.mods.Keys, name, added);
    NoWayBack(lib, have, name, name);
    assert DependenciesFirst(lib, db.mods.Keys + {name} + Elements(added), []);
    JoinInOrder(lib, db.mods.Keys, name, added, []);
    assert added + [name] + [] == RunOf(db, lib, name);
  }

  lemma {:induction false} AttachOkIff(db: Db, run: seq<Name>, env: Env, main: Name)
    requires forall n :: n in run ==> n in db.mods
    ensures Attach(db, run, env, main).ok <==> forall n :: n in run && Calls(db, n, env, main) ==> n !in env.uninit
    decreases |run|
  {
    if run != [] {
      assert run == [run[0]] + run[1..];
      if !Calls(db, run[0], env, main) {
        AttachOkIff(db, run[1..], env, main);
      } else if run[0] !in env.uninit {
        var db' := db.(mods := db.mods[run[0] := db.mods[run[0]].(inited := true)]);
        assert forall n :: n in run ==> (Calls(db', n, env, main) <==> Calls(db, n, env, main));
        AttachOkIff(db', run[1..], env, main);
      }
    }
  }

  /** No module of the run fails to relocate, bind or initialize. */
  ghost predicate RunSound(lib: Library, run: seq<Name>, env: Env, name: Name) {
    forall n :: n in run && n in lib ==>
      && n !in env.unrelocatable && n !in env.unbound
      && (lib[n].dll && !(env.noInit && n == name) ==> n !in env.uninit)
  }

  /** A load succeeds exactly when the module is there already, or everything it
      transitively imports can be found and no new module fails on its own account;
      binding never fails for want of an imported module. */
  lemma {:induction false} LoadSucceedsIff(db: Db, lib: Library, env: Env, name: Name)
    requires Valid(db)
    ensures Load(db, lib, env, name).ok <==>
              || name in db.mods
              || (&& name in lib
                  && (forall n :: Reached(lib, db.mods.Keys + {name}, lib[name].Deps(), n) ==> n in lib)
                  && RunSound(lib, RunOf(db, lib, name), env, name))
  {
    if name !in db.mods && name in lib {
      ResolveExact(lib, db.mods.Keys + {name}, lib[name].Deps());
      if Resolve(lib, db.mods.Keys + {name}, lib[name].Deps()).ok {
        LoadNewIff(db, lib, env, name);
      }
    }
  }

  lemma {:induction false} LoadNewIff(db: Db, lib: Library, env: Env, name: Name)
    requires Valid(db) && name !in db.mods && name in lib
    requires Resolve(lib, db.mods.Keys + {name}, lib[name].Deps()).ok
    ensures LoadNew(db, lib, env, name).ok <==> RunSound(lib, RunOf(db, lib, name), env, name)
  {
    var run := RunOf(db, lib, name);
    var linked := Link(db, lib, run);
    RunClosed(db, lib, name);
    LinkValid(db, lib, run);
    forall n | n in run ensures linked.mods[n].image == lib[n]
                                && (Bindable(linked, n, env) <==> n !in env.unrelocatable && n !in env.unbound)
    {
    }
    AttachOkIff(linked, run, env, name);
  }
}
