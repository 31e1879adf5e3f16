/**
 The order of the module list over whole runs: when no load meets an import cycle, every
 module comes after all it imports.
 */
module ModuleOrder {
  import opened ImportResolution
  import opened ModuleDatabase
  import opened ModuleRuns
  import opened ModuleSafety
  import opened ModuleCycles

  ghost predicate Precedes(s: seq<Name>, a: Name, b: Name) {
    exists i, j :: 0 <= i < j < |s| && s[i] == a && s[j] == b
  }

  /** What module n of the list imports from d, if d is there, comes before n. */
  ghost predicate Follows(db: Db, n: Name, d: Name)
    requires n in db.mods
  {
    d in db.mods[n].image.Deps() && d in db.mods ==> Precedes(db.order, d, n)
  }

  ghost predicate Ordered(db: Db, root: Name) {
    forall n, d {:trigger Follows(db, n, d)} :: n in db.mods && n != root ==> Follows(db, n, d)
  }

  // ---------- removal ----------

  /** What is left is in the order it was in. */
  ghost predicate Thins(db: Db, db': Db) {
    && db'.mods.Keys <= db.mods.Keys
    && (forall n {:trigger db'.mods[n]} :: n in db'.mods ==> db'.mods[n].image == db.mods[n].image)
    && (forall a, b {:trigger Precedes(db'.order, a, b)} ::
         a in db'.mods && b in db'.mods && Precedes(db.order, a, b) ==> Precedes(db'.order, a, b))
  }

  lemma {:induction false} ThinsTransitive(a: Db, b: Db, c: Db)
    requires Thins(a, b) && Thins(b, c)
    ensures Thins(a, c)
  {
    forall x, y | x in c.mods && y in c.mods && Precedes(a.order, x, y) ensures Precedes(c.order, x, y) {
      assert Precedes(b.order, x, y);
    }
  }

  lemma {:induction false} CutPrecedes(s: seq<Name>, k: nat, i: nat, j: nat)
    requires i < j < |s| && k < |s| && i != k && j != k
    ensures Precedes(s[..k] + s[k + 1..], s[i], s[j])
  {
    var t := s[..k] + s[k + 1..];
    var i', j' := if i < k then i else i - 1, if j < k then j else j - 1;
    assert 0 <= i' < j' < |t| && t[i'] == s[i] && t[j'] == s[j];
  }

  lemma {:induction false} WithoutPrecedes(s: seq<Name>, n: Name, a: Name, b: Name)
    requires Distinct(s) && Precedes(s, a, b) && a != n && b != n
    ensures Precedes(Without(s, n), a, b)
  {
    if n in s {
      var k :| 0 <= k < |s| && s[k] == n;
      WithoutAt(s, k);
      var i, j :| 0 <= i < j < |s| && s[i] == a && s[j] == b;
      CutPrecedes(s, k, i, j);
    }
  }

  lemma {:induction false} DeleteThins(db: Db, n: Name)
    requires Valid(db)
    ensures Thins(db, Delete(db, n))
  {
    var db' := Delete(db, n);
    forall a, b | a in db'.mods && b in db'.mods && Precedes(db.order, a, b) ensures Precedes(db'.order, a, b) {
      WithoutPrecedes(db.order, n, a, b);
    }
  }

  lemma {:induction false} ReleaseThins(db: Db, deps: seq<Name>)
    requires Valid(db)
    ensures Thins(db, Release(db, deps))
    decreases Live(db), 0, |deps|
  {
    if deps == [] {
    } else if deps[0] !in db.mods {
      ReleaseThins(db, deps[1..]);
    } else {
      var db1 := Bump(db, deps[0], -1);
      assert Thins(db, db1);
      if db1.mods[deps[0]].refcnt == 0 {
        assert deps[0] in Live(db) && deps[0] !in Live(db1);
        RemoveThins(db1, deps[0]);
        var db2 := Remove(db1, deps[0]);
        ReleaseThins(db2, deps[1..]);
        ThinsTransitive(db, db1, db2);
        ThinsTransitive(db, db2, Release(db2, deps[1..]));
      } else {
        ReleaseThins(db1, deps[1..]);
        ThinsTransitive(db, db1, Release(db1, deps[1..]));
      }
    }
  }

  /** Removing a module, with all that goes with it, does not change the order of the rest. */
  lemma {:induction false} RemoveThins(db: Db, n: Name)
    requires Valid(db) && n in db.mods
    ensures Thins(db, Remove(db, n))
    decreases Live(db), 1, 0
  {
    if db.mods[n].refed {
      var db1 := Release(db, db.mods[n].image.Deps());
      ReleaseThins(db, db.mods[n].image.Deps());
      DeleteThins(db1, n);
      ThinsTransitive(db, db1, Delete(db1, n));
    } else {
      DeleteThins(db, n);
    }
  }

  lemma {:induction false} ThinsOrdered(db: Db, db': Db, root: Name)
    requires Ordered(db, root) && Thins(db, db')
    ensures Ordered(db', root)
  {
    forall n, d | n in db'.mods && n != root ensures Follows(db', n, d) {
      assert Follows(db, n, d);
    }
  }

  lemma {:induction false} UnloadOrdered(db: Db, root: Name, n: Name)
    requires Valid(db) && n in db.mods && Ordered(db, root)
    ensures Ordered(Unload(db, n), root)
  {
    var db1 := Bump(db, n, -1);
    assert Thins(db, db1);
    ThinsOrdered(db, db1, root);
    if db1.mods[n].refcnt <= 0 {
      RemoveThins(db1, n);
      ThinsOrdered(db1, Remove(db1, n), root);
    }
  }

  // ---------- loads ----------

  lemma {:induction false} ImportsLoaded(db: Db, root: Name, explicit: multiset<Name>, n: Name, d: Name)
    requires Inv(db, root, explicit) && n in db.mods && n != root && d in db.mods[n].image.Deps()
    ensures d in db.mods
  {
    var k := ImportAt(db.mods[n].image.Deps(), d);
    assert Desc(n, k) in Own(db, n);
    assert Desc(n, k) in Counted(db, root);
    assert Target(db, Desc(n, k)) == d;
  }

  /** The modules after a successful load of a new module are those before it and those of
      the run, with the images of the library. */
  lemma {:induction false} NewImages(db: Db, lib: Library, env: Env, name: Name, n: Name)
    requires Valid(db) && name !in db.mods && name in lib && Load(db, lib, env, name).ok && n in Load(db, lib, env, name).db.mods
    ensures n in db.mods || n in RunOf(db, lib, name)
    ensures Load(db, lib, env, name).db.mods[n].image == if n in db.mods then db.mods[n].image else lib[n]
  {
    var run := RunOf(db, lib, name);
    LinkValid(db, lib, run);
    var linked := Link(db, lib, run);
    AttachFrame(linked, run, env, name, n);
    UpdateAllFrame(Bump(Attach(linked, run, env, name).db, name, 1), run, n);
  }

  lemma {:induction false} InFront(s: seq<Name>, run: seq<Name>, a: Name, i: nat)
    requires i < |run| && (a in Elements(s) || a in run[..i])
    ensures Precedes(s + run, a, run[i])
  {
    var all := s + run;
    assert all[|s| + i] == run[i];
    if a in Elements(s) {
      var k :| 0 <= k < |s| && s[k] == a;
      assert all[k] == a;
    } else {
      var k :| 0 <= k < i && run[..i][k] == a;
      assert all[|s| + k] == a;
    }
  }

  lemma {:induction false} PrecedesMore(s: seq<Name>, run: seq<Name>, a: Name, b: Name)
    requires Precedes(s, a, b)
    ensures Precedes(s + run, a, b)
  {
    var i, j :| 0 <= i < j < |s| && s[i] == a && s[j] == b;
    assert (s + run)[i] == a && (s + run)[j] == b;
  }

  lemma {:induction false} NewFollows(db: Db, root: Name, explicit: multiset<Name>, lib: Library, env: Env, name: Name, n: Name, d: Name)
    requires Inv(db, root, explicit) && Ordered(db, root) && name !in db.mods && Load(db, lib, env, name).ok && !HasCycle(lib)
    requires n in Load(db, lib, env, name).db.mods && n != root
    ensures Follows(Load(db, lib, env, name).db, n, d)
  {
    var db' := Load(db, lib, env, name).db;
    var run := RunOf(db, lib, name);
    LoadAppendsRun(db, root, explicit, lib, env, name);
    NewImages(db, lib, env, name, n);
    if d in db'.mods[n].image.Deps() && d in db'.mods {
      if n in db.mods {
        ImportsLoaded(db, root, explicit, n, d);
        assert Follows(db, n, d);
        PrecedesMore(db.order, run, d, n);
      } else {
        var i :| 0 <= i < |run| && run[i] == n;
        assert d in db.mods.Keys || d in run[..i];
        InFront(db.order, run, d, i);
      }
    }
  }

  lemma {:induction false} LoadOrdered(db: Db, root: Name, explicit: multiset<Name>, lib: Library, env: Env, name: Name)
    requires Inv(db, root, explicit) && Ordered(db, root) && !HasCycle(lib)
    ensures Ordered(Load(db, lib, env, name).db, root)
  {
    var r := Load(db, lib, env, name);
    if !r.ok {
      FailedLoadRestores(db, root, explicit, lib, env, name);
    } else if name in db.mods {
      assert Thins(db, r.db);
      ThinsOrdered(db, r.db, root);
    } else {
      forall n, d | n in r.db.mods && n != root ensures Follows(r.db, n, d) {
        NewFollows(db, root, explicit, lib, env, name, n, d);
      }
    }
  }

  // ---------- whole runs ----------

  ghost predicate Acyclic(events: seq<Event>) {
    forall i :: 0 <= i < |events| && events[i].LoadEvent? ==> !HasCycle(events[i].lib)
  }

  lemma {:induction false} RunKeepsOrder(root: Name, s: State, events: seq<Event>, s': State)
    requires Inv(s.db, root, s.explicit) && Ordered(s.db, root) && Runs(s, events, s') && Acyclic(events)
    ensures Ordered(s'.db, root)
    decreases |events|
  {
    if events != [] {
      match events[0] {
        case LoadEvent(lib, env, name) =>
          LoadKeepsInv(s.db, root, s.explicit, lib, env, name);
          LoadOrdered(s.db, root, s.explicit, lib, env, name);
        case UnloadEvent(name) =>
          UnloadKeepsInv(s.db, root, s.explicit, name);
          UnloadOrdered(s.db, root, name);
      }
      RunKeepsOrder(root, Step(s, events[0]), events[1..], s');
    }
  }

  /** In every state reached by loads from libraries without import cycles, failed loads and
      unloads, each module but the root comes after everything it imports. */
  lemma {:induction false} DependenciesPrecede(root: Name, image: Image, events: seq<Event>, s: State, n: Name, d: Name)
    requires Runs(Initial(root, image), events, s) && Acyclic(events)
    requires n in s.db.mods && n != root && d in s.db.mods[n].image.Deps()
    ensures Precedes(s.db.order, d, n)
  {
    InitialInv(root, image);
    RunKeepsInv(root, Initial(root, image), events, s);
    RunKeepsOrder(root, Initial(root, image), events, s);
    ImportsLoaded(s.db, root, s.explicit, n, d);
    assert Follows(s.db, n, d);
  }
}
