/**
 The module database as a value: reference counts at load, their release at
 unload, and the rollback of a failed load. Every function here follows one
 routine of the loader step by step.
 */
module ModuleDatabase {
  import opened ImportResolution

  /** refed: the imports of the module have been counted; inited: its entry point
      has been called. */
  datatype Mod = Mod(image: Image, refcnt: int, refed: bool, inited: bool)

  /** order is the circular module list read from its head, the root module. */
  datatype Db = Db(order: seq<Name>, mods: map<Name, Mod>)

  ghost predicate Valid(db: Db) {
    Distinct(db.order) && Elements(db.order) == db.mods.Keys
  }

  ghost function Without(s: seq<Name>, n: Name): seq<Name> {
    if n in s then
      var i :| 0 <= i < |s| && s[i] == n;
      s[..i] + s[i + 1..]
    else s
  }

  lemma {:induction false} WithoutAt(s: seq<Name>, i: nat)
    requires Distinct(s) && i < |s|
    ensures Without(s, s[i]) == s[..i] + s[i + 1..]
  {
    var k :| 0 <= k < |s| && s[k] == s[i] && Without(s, s[i]) == s[..k] + s[k + 1..];
    SamePlace(s, k, i);
  }

  lemma {:induction false} WithoutKeeps(s: seq<Name>, n: Name)
    requires Distinct(s)
    ensures Distinct(Without(s, n)) && Elements(Without(s, n)) == Elements(s) - {n}
    ensures s != [] && s[0] != n ==> Without(s, n) != [] && Without(s, n)[0] == s[0]
  {
    if n in s {
      var i :| 0 <= i < |s| && s[i] == n;
      WithoutAt(s, i);
      CutAt(s, i);
    }
  }

  lemma {:induction false} CutAt(s: seq<Name>, i: nat)
    requires Distinct(s) && i < |s|
    ensures Elements(s[..i] + s[i + 1..]) == Elements(s) - {s[i]} && Distinct(s[..i] + s[i + 1..])
  {
    var t := s[..i] + s[i + 1..];
    forall k, l | 0 <= k < l < |t| ensures Apart(t, k, l) {
      assert Apart(s, if k < i then k else k + 1, if l < i then l else l + 1);
    }
    forall m | m in Elements(s) && m != s[i] ensures m in Elements(t) {
      var k :| 0 <= k < |s| && s[k] == m;
      assert t[if k < i then k else k - 1] == m;
    }
    forall m | m in Elements(t) ensures m in Elements(s) && m != s[i] {
      var k :| 0 <= k < |t| && t[k] == m;
      assert m == s[if k < i then k else k + 1];
      SamePlace(s, if k < i then k else k + 1, i);
    }
  }

  /** Adds delta to the reference count of the module named n. */
  function Bump(db: Db, n: Name, delta: int): Db
    requires n in db.mods
  {
    db.(mods := db.mods[n := db.mods[n].(refcnt := db.mods[n].refcnt + delta)])
  }

  ghost function Delete(db: Db, n: Name): (r: Db)
    requires Valid(db)
    ensures Valid(r) && r.mods.Keys == db.mods.Keys - {n}
  {
    WithoutKeeps(db.order, n);
    Db(Without(db.order, n), db.mods - {n})
  }

  // ---------- release of references ----------

  function Live(db: Db): set<Name> {
    set n | n in db.mods && db.mods[n].refcnt > 0
  }

  /** The loop that gives up one reference per descriptor: a module whose count
      drops to zero is removed at once. */
  ghost function Release(db: Db, deps: seq<Name>): (r: Db)
    requires Valid(db)
    ensures Valid(r) && Live(r) <= Live(db) && r.mods.Keys <= db.mods.Keys
    decreases Live(db), 0, |deps|
  {
    if deps == [] then db
    else if deps[0] !in db.mods then Release(db, deps[1..])
    else
      var db1 := Bump(db, deps[0], -1);
      assert db1.mods.Keys == db.mods.Keys;
      if db1.mods[deps[0]].refcnt == 0 then
        assert deps[0] in Live(db) && deps[0] !in Live(db1);
        Release(Remove(db1, deps[0]), deps[1..])
      else
        Release(db1, deps[1..])
  }

  /** Removal of a module: its counted imports are given up while it is still in
      the list, then it is unlinked. */
  ghost function Remove(db: Db, n: Name): (r: Db)
    requires Valid(db) && n in db.mods
    ensures Valid(r) && Live(r) <= Live(db) && r.mods.Keys <= db.mods.Keys - {n}
    decreases Live(db), 1, 0
  {
    Delete(if db.mods[n].refed then Release(db, db.mods[n].image.Deps()) else db, n)
  }

  /** i is the position of the first module with reference count zero. */
  ghost predicate FirstUnused(db: Db, i: nat)
    requires Valid(db)
  {
    && i < |db.order|
    && InDb(db, i) && db.mods[db.order[i]].refcnt == 0
    && forall k :: 0 <= k < i ==> InDb(db, k) && db.mods[db.order[k]].refcnt != 0
  }

  ghost predicate InDb(db: Db, i: int)
    requires 0 <= i < |db.order|
  {
    db.order[i] in db.mods
  }

  /** The sweep after a failed load, which starts over after every removal. */
  ghost function FreeUnused(db: Db): (r: Db)
    requires Valid(db)
    ensures Valid(r)
    decreases db.mods.Keys
  {
    if i: nat :| FirstUnused(db, i) then FreeUnused(Remove(db, db.order[i])) else db
  }

  // ---------- load and unload ----------

  /** What can go wrong with the images of one load besides a missing file. */
  datatype Env = Env(unrelocatable: set<Name>, unbound: set<Name>, uninit: set<Name>, noInit: bool)

  datatype Loaded = Loaded(ok: bool, db: Db)

  /** Links new modules in before the root, that is at the end of the list. */
  ghost function Link(db: Db, lib: Library, names: seq<Name>): (r: Db)
    requires forall n :: n in names ==> n in lib
  {
    Db(db.order + names, db.mods + (map n | n in names :: Mod(lib[n], 0, false, false)))
  }

  /** Relocation and binding of one module: binding needs every import present. */
  predicate Bindable(db: Db, n: Name, env: Env)
    requires n in db.mods
  {
    && n !in env.unrelocatable
    && n !in env.unbound
    && forall d :: d in db.mods[n].image.Deps() ==> d in db.mods
  }

  predicate Calls(db: Db, n: Name, env: Env, main: Name)
    requires n in db.mods
  {
    db.mods[n].image.dll && !(env.noInit && n == main)
  }

  /** Calls the entry points of the new libraries in list order; stops at the
      first that reports failure. */
  function Attach(db: Db, run: seq<Name>, env: Env, main: Name): (r: Loaded)
    requires forall n :: n in run ==> n in db.mods
    ensures r.db.order == db.order && r.db.mods.Keys == db.mods.Keys
    decreases |run|
  {
    if run == [] then Loaded(true, db)
    else if !Calls(db, run[0], env, main) then Attach(db, run[1..], env, main)
    else if run[0] in env.uninit then Loaded(false, db)
    else
      Attach(db.(mods := db.mods[run[0] := db.mods[run[0]].(inited := true)]), run[1..], env, main)
  }

  lemma {:induction false} AttachFrame(db: Db, run: seq<Name>, env: Env, main: Name, n: Name)
    requires (forall m :: m in run ==> m in db.mods) && n in db.mods
    ensures var r := Attach(db, run, env, main).db;
            && r.mods[n].(inited := db.mods[n].inited) == db.mods[n]
            && (n !in run ==> r.mods[n] == db.mods[n])
    decreases |run|
  {
    if run != [] {
      if !Calls(db, run[0], env, main) {
        AttachFrame(db, run[1..], env, main, n);
      } else if run[0] !in env.uninit {
        AttachFrame(db.(mods := db.mods[run[0] := db.mods[run[0]].(inited := true)]), run[1..], env, main, n);
      }
    }
  }

  function CountIn(db: Db, deps: seq<Name>): (r: Db)
    ensures r.order == db.order && r.mods.Keys == db.mods.Keys
    decreases |deps|
  {
    if deps == [] then db
    else CountIn(if deps[0] in db.mods then Bump(db, deps[0], 1) else db, deps[1..])
  }

  /** Counting in adds one per occurrence of a name in the table. */
  lemma {:induction false} CountInAdds(db: Db, deps: seq<Name>, n: Name)
    requires n in db.mods
    ensures CountIn(db, deps).mods[n] == db.mods[n].(refcnt := db.mods[n].refcnt + multiset(deps)[n])
    decreases |deps|
  {
    if deps != [] {
      assert deps == [deps[0]] + deps[1..];
      CountInAdds(if deps[0] in db.mods then Bump(db, deps[0], 1) else db, deps[1..], n);
    }
  }

  /** Counts the imports of module n, unless they are counted already. */
  function UpdateRefcount(db: Db, n: Name): (r: Db)
    requires n in db.mods
    ensures r.order == db.order && r.mods.Keys == db.mods.Keys
  {
    if db.mods[n].refed || !db.mods[n].image.hasImports then db
    else
      var db' := CountIn(db, db.mods[n].image.imports);
      db'.(mods := db'.mods[n := db'.mods[n].(refed := true)])
  }

  function UpdateAll(db: Db, run: seq<Name>): (r: Db)
    requires forall n :: n in run ==> n in db.mods
    ensures r.order == db.order && r.mods.Keys == db.mods.Keys
    decreases |run|
  {
    if run == [] then db else UpdateAll(UpdateRefcount(db, run[0]), run[1..])
  }

  lemma {:induction false} LinkValid(db: Db, lib: Library, names: seq<Name>)
    requires Valid(db) && Distinct(names)
    requires forall n :: n in names ==> n in lib && n !in db.mods
    ensures Valid(Link(db, lib, names))
  {
    var r := Link(db, lib, names);
    forall i, j | 0 <= i < |db.order| && 0 <= j < |names| ensures db.order[i] != names[j] {
      assert db.order[i] in Elements(db.order);
      assert names[j] in names;
    }
    DistinctJoin(db.order, names);
    forall n | n in r.mods ensures n in Elements(r.order) {
      if n in db.mods {
        var k :| 0 <= k < |db.order| && db.order[k] == n;
        assert r.order[k] == n;
      } else {
        var k :| 0 <= k < |names| && names[k] == n;
        assert r.order[|db.order| + k] == n;
      }
    }
    forall n | n in Elements(r.order) ensures n in r.mods {
      var k :| 0 <= k < |r.order| && r.order[k] == n;
      if k < |db.order| {
        assert n in Elements(db.order);
      } else {
        assert n == names[k - |db.order|];
      }
    }
  }

  /** The names a load of a new module links in: its missing dependencies, then itself. */
  ghost function RunOf(db: Db, lib: Library, name: Name): (run: seq<Name>)
    requires name in lib && name !in db.mods
    ensures Distinct(run) && forall n :: n in run ==> n in lib && n !in db.mods
    ensures run != [] && run[|run| - 1] == name
  {
    var added := Resolve(lib, db.mods.Keys + {name}, lib[name].Deps()).added;
    ResolveSound(lib, db.mods.Keys + {name}, lib[name].Deps());
    assert Distinct([name]);
    DistinctJoin(added, [name]);
    added + [name]
  }

  /** Binds, initializes and counts the modules of a run that has been linked in, or takes
      them out again. */
  ghost function Complete(linked: Db, run: seq<Name>, resolved: bool, env: Env, name: Name): Loaded
    requires Valid(linked) && name in linked.mods && forall n :: n in run ==> n in linked.mods
  {
    if !resolved then
      Loaded(false, FreeUnused(linked))
    else if exists n :: n in run && !Bindable(linked, n, env) then
      Loaded(false, FreeUnused(linked))
    else
      var attached := Attach(linked, run, env, name);
      if !attached.ok then
        Loaded(false, FreeUnused(attached.db))
      else
        Loaded(true, UpdateAll(Bump(attached.db, name, 1), run))
  }

  ghost function LoadNew(db: Db, lib: Library, env: Env, name: Name): Loaded
    requires Valid(db) && name !in db.mods && name in lib
  {
    var run := RunOf(db, lib, name);
    LinkValid(db, lib, run);
    Complete(Link(db, lib, run), run, Resolve(lib, db.mods.Keys + {name}, lib[name].Deps()).ok, env, name)
  }

  ghost function Load(db: Db, lib: Library, env: Env, name: Name): Loaded
    requires Valid(db)
  {
    if name in db.mods then Loaded(true, Bump(db, name, 1))
    else if name !in lib then Loaded(false, db)
    else LoadNew(db, lib, env, name)
  }

  /** Gives up one explicit load of the module named n. */
  ghost function Unload(db: Db, n: Name): Db
    requires Valid(db) && n in db.mods
  {
    var db' := Bump(db, n, -1);
    if db'.mods[n].refcnt > 0 then db' else Remove(db', n)
  }
}
