/**
 Modules that import each other in a cycle: their counts never drop to zero, so they
 stay for good once their imports have been counted.
 */
module ModuleCycles {
  import opened ImportResolution
  import opened ModuleDatabase
  import opened ModuleRuns
  import opened ModuleSafety

  /** The held descriptor d of a module of c names n. */
  ghost predicate Ties(db: Db, held: set<Desc>, c: set<Name>, n: Name, d: Desc) {
    d in held && d.importer in c && Present(db, d) && Target(db, d) == n
  }

  ghost predicate Tied(db: Db, held: set<Desc>, c: set<Name>, n: Name) {
    exists d :: Ties(db, held, c, n, d)
  }

  /** Every module of c is named by a held descriptor of a module of c. */
  ghost predicate Knot(db: Db, held: set<Desc>, c: set<Name>) {
    c <= db.mods.Keys && forall n {:trigger Tied(db, held, c, n)} :: n in c ==> Tied(db, held, c, n)
  }

  /** A knot is kept while its modules stay, with what they hold. */
  lemma {:induction false} KnotKept(db: Db, held: set<Desc>, db': Db, held': set<Desc>, c: set<Name>)
    requires Knot(db, held, c) && c <= db'.mods.Keys
    requires forall n :: n in c ==> db'.mods[n].image == db.mods[n].image
    requires forall d :: d in held && d.importer in c ==> d in held'
    ensures Knot(db', held', c)
  {
    forall n | n in c ensures Tied(db', held', c, n) {
      assert Tied(db, held, c, n);
      var d :| Ties(db, held, c, n, d);
      assert Ties(db', held', c, n, d);
    }
  }

  /** The modules of a knot have positive counts. */
  lemma {:induction false} KnotCounts(db: Db, root: Name, explicit: multiset<Name>, held: set<Desc>, c: set<Name>, n: Name)
    requires Exact(db, root, explicit, held) && Knot(db, held, c) && n in c
    ensures db.mods[n].refcnt > 0
  {
    assert Tied(db, held, c, n);
    var d :| Ties(db, held, c, n, d);
    assert d in Pointing(db, held, n);
    assert db.mods[n].refcnt == Due(db, root, explicit, held, n);
  }

  /** Releasing the descriptors of a dying module spares a knot. */
  lemma {:induction false} ReleaseSpares(db: Db, root: Name, explicit: multiset<Name>, held: set<Desc>, dying: set<Name>, m: Name, k: nat, c: set<Name>)
    requires Exact(db, root, explicit, held) && InUse(db, dying) && Claims(db, root, held, dying)
    requires root !in dying && m in dying && Remaining(db, held, m, k)
    requires Knot(db, held, c) && c !! dying
    ensures c <= Release(db, db.mods[m].image.Deps()[k..]).mods.Keys
    decreases Live(db), 0, |db.mods[m].image.Deps()| - k
  {
    var deps := db.mods[m].image.Deps();
    if k == |deps| {
      assert deps[k..] == [];
    } else {
      var n, d := deps[k], Desc(m, k);
      assert deps[k..][0] == n && deps[k..][1..] == deps[k + 1..];
      assert Target(db, d) == n;
      DropOne(db, root, explicit, held, d);
      DropOneFrame(db, dying, n);
      LiveDrop(db, n);
      var db1, held1 := Bump(db, n, -1), held - {d};
      ClaimsShrink(db, db1, root, held, held1, dying);
      KnotKept(db, held, db1, held1, c);
      if db1.mods[n].refcnt == 0 {
        RemoveSpares(db1, root, explicit, held1, dying, n, c);
        RemoveExact(db1, root, explicit, held1, dying, n);
        var db2 := Remove(db1, n);
        var held2 := StillHeld(db2, held1);
        ShrinksTransitive(db, db1, db2, dying);
        ClaimsShrink(db, db2, root, held, held2, dying);
        RemainingNext(db, db2, held, held2, dying, m, k);
        KnotKept(db1, held1, db2, held2, c);
        ReleaseSpares(db2, root, explicit, held2, dying, m, k + 1, c);
      } else {
        RemainingNext(db, db1, held, held1, dying, m, k);
        ReleaseSpares(db1, root, explicit, held1, dying, m, k + 1, c);
      }
    }
  }

  /** Removing a module whose count has dropped to zero spares a knot. */
  lemma {:induction false} RemoveSpares(db: Db, root: Name, explicit: multiset<Name>, held: set<Desc>, dying: set<Name>, n: Name, c: set<Name>)
    requires Exact(db, root, explicit, held) && InUse(db, dying + {n}) && Claims(db, root, held, dying)
    requires root !in dying && n in db.mods && n != root && n !in dying
    requires Knot(db, held, c) && c !! dying
    ensures c <= Remove(db, n).mods.Keys
    decreases Live(db), 1, 0
  {
    assert db.mods[n].refcnt == 0;
    if n in c {
      KnotCounts(db, root, explicit, held, c, n);
    }
    if db.mods[n].refed {
      var deps := db.mods[n].image.Deps();
      assert deps[0..] == deps;
      RemainingAll(db, root, held, dying, n);
      ReleaseSpares(db, root, explicit, held, dying + {n}, n, 0, c);
    }
  }

  // ---------- over whole runs ----------

  /** Between operations exactly the counted descriptors are held. */
  ghost predicate Cyclic(db: Db, root: Name, c: set<Name>) {
    root !in c && Knot(db, Counted(db, root), c)
  }

  /** A counted descriptor stays counted while its module does. */
  lemma {:induction false} CyclicKept(db: Db, db': Db, root: Name, c: set<Name>)
    requires Cyclic(db, root, c) && c <= db'.mods.Keys
    requires forall n :: n in c ==> db'.mods[n].image == db.mods[n].image && (db.mods[n].refed ==> db'.mods[n].refed)
    ensures Cyclic(db', root, c)
  {
    forall d | d in Counted(db, root) && d.importer in c ensures d in Counted(db', root) {
      assert Own(db', d.importer) == Own(db, d.importer);
    }
    KnotKept(db, Counted(db, root), db', Counted(db', root), c);
  }

  lemma {:induction false} UnloadSpares(db: Db, root: Name, explicit: multiset<Name>, n: Name, c: set<Name>)
    requires Inv(db, root, explicit) && explicit[n] > 0 && Cyclic(db, root, c)
    ensures n in db.mods && Cyclic(Unload(db, n), root, c)
  {
    var held := Counted(db, root);
    ExplicitLess(db, root, explicit, held, n);
    var db1 := Bump(db, n, -1);
    CountedAfterBump(db, root, n, -1);
    DropOneFrame(db, {}, n);
    CyclicKept(db, db1, root, c);
    if db1.mods[n].refcnt == 0 {
      ClaimsAtRest(db1, root);
      RemoveSpares(db1, root, explicit - multiset{n}, held, {}, n, c);
      RemoveExact(db1, root, explicit - multiset{n}, held, {}, n);
      CyclicKept(db1, Remove(db1, n), root, c);
    }
  }

  lemma {:induction false} UpdateAllFrame(db: Db, run: seq<Name>, m: Name)
    requires (forall n :: n in run ==> n in db.mods) && m in db.mods
    ensures UpdateAll(db, run).mods[m].image == db.mods[m].image
    ensures db.mods[m].refed ==> UpdateAll(db, run).mods[m].refed
    decreases |run|
  {
    if run != [] {
      UpdateFrame(db, run[0], m);
      UpdateAllFrame(UpdateRefcount(db, run[0]), run[1..], m);
    }
  }

  lemma {:induction false} LoadFrame(db: Db, root: Name, explicit: multiset<Name>, lib: Library, env: Env, name: Name, m: Name)
    requires Inv(db, root, explicit) && m in db.mods
    ensures var r := Load(db, lib, env, name).db;
            m in r.mods && r.mods[m].image == db.mods[m].image && (db.mods[m].refed ==> r.mods[m].refed)
  {
    if !Load(db, lib, env, name).ok {
      FailedLoadRestores(db, root, explicit, lib, env, name);
    } else if name !in db.mods {
      var run := RunOf(db, lib, name);
      LinkValid(db, lib, run);
      var linked := Link(db, lib, run);
      AttachFrame(linked, run, env, name, m);
      UpdateAllFrame(Bump(Attach(linked, run, env, name).db, name, 1), run, m);
    }
  }

  lemma {:induction false} LoadSpares(db: Db, root: Name, explicit: multiset<Name>, lib: Library, env: Env, name: Name, c: set<Name>)
    requires Inv(db, root, explicit) && Cyclic(db, root, c)
    ensures Cyclic(Load(db, lib, env, name).db, root, c)
  {
    forall n | n in c ensures n in Load(db, lib, env, name).db.mods
        && Load(db, lib, env, name).db.mods[n].image == db.mods[n].image
        && (db.mods[n].refed ==> Load(db, lib, env, name).db.mods[n].refed) {
      LoadFrame(db, root, explicit, lib, env, name, n);
    }
    CyclicKept(db, Load(db, lib, env, name).db, root, c);
  }

  /** Modules in a cycle survive every run, whatever is loaded and given up. */
  lemma {:induction false} CycleSurvives(root: Name, s: State, events: seq<Event>, s': State, c: set<Name>)
    requires Inv(s.db, root, s.explicit) && Runs(s, events, s') && Cyclic(s.db, root, c)
    ensures Cyclic(s'.db, root, c) && c <= s'.db.mods.Keys
    decreases |events|
  {
    if events != [] {
      match events[0] {
        case LoadEvent(lib, env, name) =>
          LoadKeepsInv(s.db, root, s.explicit, lib, env, name);
          LoadSpares(s.db, root, s.explicit, lib, env, name, c);
        case UnloadEvent(name) =>
          UnloadKeepsInv(s.db, root, s.explicit, name);
          UnloadSpares(s.db, root, s.explicit, name, c);
      }
      CycleSurvives(root, Step(s, events[0]), events[1..], s', c);
    }
  }

  /** An import of a loaded module other than the root is counted. */
  lemma {:induction false} ImportTies(db: Db, root: Name, explicit: multiset<Name>, c: set<Name>, m: Name, n: Name)
    requires Inv(db, root, explicit) && Imports(LoadedGraph(db), m, n) && m != root && m in c
    ensures n in db.mods && Tied(db, Counted(db, root), c, n)
  {
    var k := ImportAt(db.mods[m].image.Deps(), n);
    assert Desc(m, k) in Own(db, m);
    assert Desc(m, k) in Counted(db, root);
    assert Ties(db, Counted(db, root), c, n, Desc(m, k));
  }

  /** The modules of an import cycle and of a path from it, without the root, hold each
      other. */
  lemma {:induction false} CycleCounted(db: Db, root: Name, explicit: multiset<Name>, c: seq<Name>, path: seq<Name>)
    requires Inv(db, root, explicit) && Cycle(LoadedGraph(db), c) && root !in c
    requires ImportPath(LoadedGraph(db), path) && path[0] == c[0] && root !in path
    ensures Cyclic(db, root, Elements(c) + Elements(path))
  {
    var all := Elements(c) + Elements(path);
    forall j | 0 <= j < |c| ensures c[j] in db.mods && Tied(db, Counted(db, root), all, c[j]) {
      var i := if j == 0 then |c| - 2 else j - 1;
      assert Imports(LoadedGraph(db), c[i], c[i + 1]);
      assert c[i] in Elements(c);
      ImportTies(db, root, explicit, all, c[i], c[j]);
    }
    forall j | 0 < j < |path| ensures path[j] in db.mods && Tied(db, Counted(db, root), all, path[j]) {
      assert Imports(LoadedGraph(db), path[j - 1], path[j]);
      assert path[j - 1] in Elements(path);
      ImportTies(db, root, explicit, all, path[j - 1], path[j]);
    }
  }

  lemma {:induction false} ImportAt(deps: seq<Name>, n: Name) returns (k: nat)
    requires n in deps
    ensures k < |deps| && deps[k] == n
  {
    k :| 0 <= k < |deps| && deps[k] == n;
  }

  /** What is left besides the root when all explicit loads have been given up is reached
      from an import cycle, and stays for good. */
  lemma {:induction false} LeftByCycles(root: Name, image: Image, events: seq<Event>, s: State, n: Name)
    returns (c: seq<Name>, path: seq<Name>)
    requires Runs(Initial(root, image), events, s) && s.explicit == multiset{} && n in s.db.mods && n != root
    ensures Cycle(LoadedGraph(s.db), c) && root !in c
    ensures ImportPath(LoadedGraph(s.db), path) && path[0] == c[0] && path[|path| - 1] == n
    ensures forall more, s' :: Runs(s, more, s') ==> n in s'.db.mods
  {
    InitialInv(root, image);
    RunKeepsInv(root, Initial(root, image), events, s);
    c, path := EndlessImporters(s.db, root, [n]);
    CycleCounted(s.db, root, s.explicit, c, path);
    assert n in Elements(path);
    forall more, s' | Runs(s, more, s') ensures n in s'.db.mods {
      CycleSurvives(root, s, more, s', Elements(c) + Elements(path));
    }
  }
}
