/**
 Which entry points of libraries a load and an unload call, and in what order: what a
 load sets up, a rollback or an unload takes down again, once each.
 */
module EntryPoints {
  import opened ImportResolution
  import opened ModuleDatabase
  import opened ModuleSafety
  import opened ModuleOrder

  /** One call of an entry point: with the request to attach, which the library accepts or
      refuses, or with the request to detach. */
  datatype Call = Attached(name: Name) | Refused(name: Name) | Detached(name: Name)

  // ---------- the calls of a load ----------

  /** The libraries of a run whose entry points a load of main calls, in list order. */
  ghost function Entries(lib: Library, run: seq<Name>, env: Env, main: Name): seq<Name> {
    if run == [] then []
    else
      (if run[0] in lib && lib[run[0]].dll && !(env.noInit && run[0] == main) then [run[0]] else [])
      + Entries(lib, run[1..], env, main)
  }

  /** The calls made for a list of libraries, which end with the first that refuses. */
  ghost function Calling(names: seq<Name>, uninit: set<Name>): seq<Call> {
    if names == [] then []
    else if names[0] in uninit then [Refused(names[0])]
    else [Attached(names[0])] + Calling(names[1..], uninit)
  }

  ghost function Each(names: seq<Name>): (r: seq<Call>)
    ensures |r| == |names| && forall i :: 0 <= i < |r| ==> r[i] == Attached(names[i])
  {
    if names == [] then [] else [Attached(names[0])] + Each(names[1..])
  }

  /** The library at position k is the first to refuse. */
  ghost predicate Refuses(names: seq<Name>, uninit: set<Name>, k: nat) {
    k < |names| && names[k] in uninit && forall i :: 0 <= i < k ==> names[i] !in uninit
  }

  lemma {:induction false} CallingAll(names: seq<Name>, uninit: set<Name>)
    requires forall n :: n in names ==> n !in uninit
    ensures Calling(names, uninit) == Each(names)
  {
    if names != [] {
      CallingAll(names[1..], uninit);
    }
  }

  lemma {:induction false} CallingUntil(names: seq<Name>, uninit: set<Name>) returns (k: nat)
    requires exists n :: n in names && n in uninit
    ensures Refuses(names, uninit, k)
    ensures Calling(names, uninit) == Each(names[..k]) + [Refused(names[k])]
  {
    if names[0] in uninit {
      k := 0;
    } else {
      var n :| n in names && n in uninit;
      assert names == [names[0]] + names[1..];
      assert n in names[1..];
      var j := CallingUntil(names[1..], uninit);
      k := j + 1;
      assert forall i :: 0 < i < k ==> names[i] == names[1..][i - 1];
      assert names[..k] == [names[0]] + names[1..][..j];
      assert Each(names[..k]) == [Attached(names[0])] + Each(names[1..][..j]);
    }
  }

  /** The libraries called are those of the run that have an entry point to call. */
  lemma {:induction false} EntriesExact(lib: Library, run: seq<Name>, env: Env, main: Name, n: Name)
    ensures n in Entries(lib, run, env, main) <==>
              n in run && n in lib && lib[n].dll && !(env.noInit && n == main)
  {
    if run != [] {
      assert run == [run[0]] + run[1..];
      EntriesExact(lib, run[1..], env, main, n);
    }
  }

  /** They are called in the order of the list. */
  lemma {:induction false} EntriesInOrder(lib: Library, run: seq<Name>, env: Env, main: Name, a: Name, b: Name)
    requires Precedes(run, a, b) && a in Entries(lib, run, env, main) && b in Entries(lib, run, env, main)
    requires Distinct(run)
    ensures Precedes(Entries(lib, run, env, main), a, b)
  {
    var i, j :| 0 <= i < j < |run| && run[i] == a && run[j] == b;
    SamePlace(run, i, j);
    var all, rest := Entries(lib, run, env, main), Entries(lib, run[1..], env, main);
    DistinctTail(run);
    if i == 0 {
      assert b in rest by {
        EntriesExact(lib, run[1..], env, main, b);
        EntriesExact(lib, run, env, main, b);
        assert run[1..][j - 1] == b;
      }
      var k :| 0 <= k < |rest| && rest[k] == b;
      EntriesExact(lib, run, env, main, a);
      assert all[0] == a && all[k + 1] == b;
    } else {
      assert run[1..][i - 1] == a && run[1..][j - 1] == b;
      SamePlace(run, 0, i);
      SamePlace(run, 0, j);
      assert a in rest && b in rest;
      EntriesInOrder(lib, run[1..], env, main, a, b);
      PrecedesAfter(all[..|all| - |rest|], rest, a, b);
      assert all == all[..|all| - |rest|] + rest;
    }
  }

  lemma {:induction false} DistinctTail(s: seq<Name>)
    requires Distinct(s) && s != []
    ensures Distinct(s[1..]) && s[0] !in s[1..]
  {
    forall k | 0 <= k < |s[1..]| ensures s[1..][k] != s[0] {
      SamePlace(s, 0, k + 1);
    }
    forall i, j | 0 <= i < j < |s[1..]| ensures Apart(s[1..], i, j) {
      assert Apart(s, i + 1, j + 1);
    }
  }

  lemma {:induction false} PrecedesAfter(s: seq<Name>, t: seq<Name>, a: Name, b: Name)
    requires Precedes(t, a, b)
    ensures Precedes(s + t, a, b)
  {
    var i, j :| 0 <= i < j < |t| && t[i] == a && t[j] == b;
    assert (s + t)[|s| + i] == a && (s + t)[|s| + j] == b;
  }

  /** None is called twice. */
  lemma {:induction false} EntriesOnce(lib: Library, run: seq<Name>, env: Env, main: Name)
    requires Distinct(run)
    ensures Distinct(Entries(lib, run, env, main))
  {
    if run != [] {
      DistinctTail(run);
      EntriesOnce(lib, run[1..], env, main);
      var rest := Entries(lib, run[1..], env, main);
      EntriesExact(lib, run[1..], env, main, run[0]);
      var all := Entries(lib, run, env, main);
      forall i, j | 0 <= i < j < |all| ensures Apart(all, i, j) {
        var d := |all| - |rest|;
        if i >= d {
          assert Apart(rest, i - d, j - d);
        } else {
          assert all[j] == rest[j - d];
        }
      }
    }
  }

  /** Without cyclic imports an entry point is called after those of all the new modules
      its library imports. */
  lemma {:induction false} EntriesAfterImports(db: Db, lib: Library, env: Env, name: Name, n: Name, d: Name)
    requires Valid(db) && name in lib && name !in db.mods && !HasCycle(lib)
    requires Resolve(lib, db.mods.Keys + {name}, lib[name].Deps()).ok
    requires n in Entries(lib, RunOf(db, lib, name), env, name) && d in Entries(lib, RunOf(db, lib, name), env, name)
    requires n in lib && d in lib[n].Deps()
    ensures Precedes(Entries(lib, RunOf(db, lib, name), env, name), d, n)
  {
    var run := RunOf(db, lib, name);
    EntriesExact(lib, run, env, name, n);
    EntriesExact(lib, run, env, name, d);
    RunInOrder(db, lib, name);
    RunAfter(lib, db.mods.Keys, run, n, d);
    EntriesInOrder(lib, run, env, name, d, n);
  }

  lemma {:induction false} RunAfter(lib: Library, have: set<Name>, run: seq<Name>, n: Name, d: Name)
    requires DependenciesFirst(lib, have, run) && n in run && n in lib && d in lib[n].Deps() && d !in have
    ensures Precedes(run, d, n)
  {
    var i :| 0 <= i < |run| && run[i] == n;
    assert d in Elements(run[..i]);
    var j :| 0 <= j < |run[..i]| && run[..i][j] == d;
    assert run[j] == d;
  }

  lemma {:induction false} EntriesSame(g: Library, lib: Library, run: seq<Name>, env: Env, main: Name)
    requires forall n :: n in run ==> n in g && n in lib && g[n] == lib[n]
    ensures Entries(g, run, env, main) == Entries(lib, run, env, main)
  {
    if run != [] {
      assert run == [run[0]] + run[1..];
      EntriesSame(g, lib, run[1..], env, main);
    }
  }

  // ---------- the flags a load leaves ----------

  /** A new module is marked exactly if its entry point was called and accepted. */
  lemma {:induction false} AttachMarks(db: Db, run: seq<Name>, env: Env, main: Name, n: Name)
    requires (forall m :: m in run ==> m in db.mods) && Distinct(run) && n in db.mods
    ensures Attach(db, run, env, main).db.mods[n].inited <==>
              db.mods[n].inited || Attached(n) in Calling(Entries(LoadedGraph(db), run, env, main), env.uninit)
    decreases |run|
  {
    if run != [] {
      assert run == [run[0]] + run[1..];
      DistinctTail(run);
      var rest := Entries(LoadedGraph(db), run[1..], env, main);
      if !Calls(db, run[0], env, main) {
        assert Entries(LoadedGraph(db), run, env, main) == rest;
        AttachMarks(db, run[1..], env, main, n);
      } else {
        assert Entries(LoadedGraph(db), run, env, main) == [run[0]] + rest;
        if run[0] !in env.uninit {
          var db' := db.(mods := db.mods[run[0] := db.mods[run[0]].(inited := true)]);
          assert LoadedGraph(db') == LoadedGraph(db);
          AttachMarks(db', run[1..], env, main, n);
        }
      }
    }
  }

  lemma {:induction false} UpdateMarks(db: Db, run: seq<Name>, n: Name)
    requires (forall m :: m in run ==> m in db.mods) && n in db.mods
    ensures UpdateAll(db, run).mods[n].inited == db.mods[n].inited
    decreases |run|
  {
    if run != [] {
      assert run == [run[0]] + run[1..];
      CountInAdds(db, db.mods[run[0]].image.imports, n);
      CountInAdds(db, db.mods[run[0]].image.imports, run[0]);
      UpdateMarks(UpdateRefcount(db, run[0]), run[1..], n);
    }
  }

  /** After a load of a new module exactly those of the new modules are marked as initialized
      that are libraries and not the module named when the caller asked for no initialization;
      a module that was there keeps its mark. */
  lemma {:induction false} LoadMarks(db: Db, lib: Library, env: Env, name: Name, n: Name)
    requires Valid(db) && name !in db.mods && Load(db, lib, env, name).ok && n in Load(db, lib, env, name).db.mods
    ensures n !in db.mods ==> n in lib && n in RunOf(db, lib, name)
    ensures Load(db, lib, env, name).db.mods[n].inited <==>
              if n in db.mods then db.mods[n].inited else lib[n].dll && !(env.noInit && n == name)
  {
    var run := RunOf(db, lib, name);
    var linked := Link(db, lib, run);
    LinkValid(db, lib, run);
    UpdateMarks(Bump(Attach(linked, run, env, name).db, name, 1), run, n);
    AttachMarks(linked, run, env, name, n);
    NewEntries(db, lib, env, name);
    var names := Entries(lib, run, env, name);
    EntriesExact(lib, run, env, name, n);
    assert forall m :: m in names ==> m !in env.uninit by {
      forall m | m in names ensures m !in env.uninit {
        EntriesExact(lib, run, env, name, m);
        AttachOkIff(linked, run, env, name);
        assert Calls(linked, m, env, name);
      }
    }
    CallingAll(names, env.uninit);
    EachHas(names, n);
  }

  lemma {:induction false} EachHas(names: seq<Name>, n: Name)
    ensures Attached(n) in Each(names) <==> n in names
  {
    if n in names {
      var k :| 0 <= k < |names| && names[k] == n;
      assert Each(names)[k] == Attached(n);
    }
  }

  /** The entries of the run do not depend on whether the run has been linked in. */
  lemma {:induction false} NewEntries(db: Db, lib: Library, env: Env, name: Name)
    requires name in lib && name !in db.mods
    ensures var run := RunOf(db, lib, name);
            Entries(LoadedGraph(Link(db, lib, run)), run, env, name) == Entries(lib, run, env, name)
  {
    var run := RunOf(db, lib, name);
    EntriesSame(LoadedGraph(Link(db, lib, run)), lib, run, env, name);
  }

  // ---------- the calls of a removal ----------

  predicate Running(m: Mod) {
    m.inited && m.image.dll
  }

  /** Removals take modules out and change nothing but counts of the others. */
  ghost predicate Keeps(db: Db, db': Db) {
    && db'.mods.Keys <= db.mods.Keys
    && forall n :: n in db'.mods ==> db'.mods[n].inited == db.mods[n].inited && db'.mods[n].image == db.mods[n].image
  }

  /** The calls due when the modules missing in db' have been removed from db. */
  ghost function Gone(db: Db, db': Db): set<Call> {
    set n | n in db.mods && n !in db'.mods && Running(db.mods[n]) :: Detached(n)
  }

  /** Going from db to db' has called the entry point of every running library that is gone,
      once each, and nothing else. */
  ghost predicate TakenDown(db: Db, db': Db, calls: seq<Call>, calls': seq<Call>) {
    && Keeps(db, db') && calls <= calls'
    && multiset(calls'[|calls|..]) == multiset(Gone(db, db'))
  }

  function Goodbye(m: Mod, n: Name): seq<Call> {
    if Running(m) then [Detached(n)] else []
  }

  lemma {:induction false} NothingTaken(db: Db, db': Db, calls: seq<Call>)
    requires Keeps(db, db') && db'.mods.Keys == db.mods.Keys
    ensures TakenDown(db, db', calls, calls)
  {
    assert Gone(db, db') == {};
    assert calls[|calls|..] == [];
  }

  lemma {:induction false} TakenJoin(a: Db, b: Db, c: Db, ca: seq<Call>, cb: seq<Call>, cc: seq<Call>)
    requires TakenDown(a, b, ca, cb) && TakenDown(b, c, cb, cc)
    ensures TakenDown(a, c, ca, cc)
  {
    GoneJoin(a, b, c);
    BagOf(Gone(a, b), Gone(b, c));
    CallsAfter(ca, cb, cc);
  }

  lemma {:induction false} GoneJoin(a: Db, b: Db, c: Db)
    requires Keeps(a, b) && Keeps(b, c)
    ensures Gone(a, c) == Gone(a, b) + Gone(b, c) && Gone(a, b) !! Gone(b, c) && Keeps(a, c)
  {
  }

  lemma {:induction false} BagOf(x: set<Call>, y: set<Call>)
    requires x !! y
    ensures multiset(x + y) == multiset(x) + multiset(y)
  {
  }

  lemma {:induction false} CallsAfter(a: seq<Call>, b: seq<Call>, c: seq<Call>)
    requires a <= b <= c
    ensures c[|a|..] == b[|a|..] + c[|b|..]
  {
  }

  /** A module's own entry point is called first, then those of what goes with it. */
  lemma {:induction false} TakenLast(db: Db, db': Db, n: Name, calls: seq<Call>, calls': seq<Call>)
    requires n in db.mods && n in db'.mods && Valid(db')
    requires TakenDown(db, db', calls + Goodbye(db.mods[n], n), calls')
    ensures TakenDown(db, Delete(db', n), calls, calls')
  {
    var mine := Goodbye(db.mods[n], n);
    assert calls'[|calls|..] == mine + calls'[|calls + mine|..];
    var own: set<Call> := if Running(db.mods[n]) then {Detached(n)} else {};
    assert Gone(db, Delete(db', n)) == own + Gone(db, db');
    assert own !! Gone(db, db');
    BagOf(own, Gone(db, db'));
    assert multiset(mine) == multiset(own);
  }

  // ---------- a load as a whole ----------

  /** Every module of the new run is there and can be relocated and bound. */
  ghost predicate Prepared(db: Db, lib: Library, env: Env, name: Name)
    requires name in lib && name !in db.mods
  {
    && Resolve(lib, db.mods.Keys + {name}, lib[name].Deps()).ok
    && forall n :: n in RunOf(db, lib, name) ==> n !in env.unrelocatable && n !in env.unbound
  }

  /** The first k libraries accepted, the next refused, and the k have been called again
      to detach, once each. */
  ghost predicate TurnedBack(names: seq<Name>, uninit: set<Name>, k: nat, calls: seq<Call>, calls': seq<Call>) {
    && Refuses(names, uninit, k)
    && var up := calls + Each(names[..k]) + [Refused(names[k])];
       && up <= calls'
       && multiset(calls'[|up|..]) == multiset(set n | n in names[..k] :: Detached(n))
  }

  /** The calls a load makes, by what becomes of it. */
  ghost predicate LoadCalls(db: Db, lib: Library, env: Env, name: Name, ok: bool, calls: seq<Call>, calls': seq<Call>) {
    if name in db.mods || name !in lib then calls' == calls
    else
      var names := Entries(lib, RunOf(db, lib, name), env, name);
      if ok then calls' == calls + Each(names)
      else if !Prepared(db, lib, env, name) then calls' == calls
      else exists k :: TurnedBack(names, env.uninit, k, calls, calls')
  }

  lemma {:induction false} JoinThree(a: seq<Call>, b: seq<Call>, c: seq<Call>)
    ensures a + b + c == a + (b + c)
  {
  }

  /** What is taken down after a refusal is what had been set up. */
  lemma {:induction false} SweepCalls(db: Db, lib: Library, env: Env, name: Name, calls: seq<Call>, calls': seq<Call>)
    requires Valid(db) && name in lib && name !in db.mods && Prepared(db, lib, env, name)
    requires (forall n :: n in RunOf(db, lib, name) ==> n in Link(db, lib, RunOf(db, lib, name)).mods)
    requires var run := RunOf(db, lib, name);
             var names := Entries(lib, run, env, name);
             var r := Attach(Link(db, lib, run), run, env, name);
             !r.ok && TakenDown(r.db, db, calls + Calling(names, env.uninit), calls')
    ensures LoadCalls(db, lib, env, name, false, calls, calls')
  {
    var run := RunOf(db, lib, name);
    var linked := Link(db, lib, run);
    var r, names := Attach(linked, run, env, name), Entries(lib, run, env, name);
    AttachOkIff(linked, run, env, name);
    var m :| m in run && Calls(linked, m, env, name) && m in env.uninit;
    EntriesExact(lib, run, env, name, m);
    var k := CallingUntil(names, env.uninit);
    var up := calls + Each(names[..k]) + [Refused(names[k])];
    JoinThree(calls, Each(names[..k]), [Refused(names[k])]);
    SetUp(db, lib, env, name, k);
    assert TurnedBack(names, env.uninit, k, calls, calls');
  }

  lemma {:induction false} SetUp(db: Db, lib: Library, env: Env, name: Name, k: nat)
    requires Valid(db) && name in lib && name !in db.mods
    requires (forall n :: n in RunOf(db, lib, name) ==> n in Link(db, lib, RunOf(db, lib, name)).mods)
    requires var names := Entries(lib, RunOf(db, lib, name), env, name);
             Refuses(names, env.uninit, k) && Calling(names, env.uninit) == Each(names[..k]) + [Refused(names[k])]
    ensures var run := RunOf(db, lib, name);
            var names := Entries(lib, run, env, name);
            Gone(Attach(Link(db, lib, run), run, env, name).db, db) == set n | n in names[..k] :: Detached(n)
  {
    var run := RunOf(db, lib, name);
    var linked := Link(db, lib, run);
    var names := Entries(lib, run, env, name);
    var db' := Attach(linked, run, env, name).db;
    NewEntries(db, lib, env, name);
    forall n | n in run ensures n in db'.mods && n !in db.mods && (Running(db'.mods[n]) <==> n in names[..k]) {
      AttachMarks(linked, run, env, name, n);
      AttachFrame(linked, run, env, name, n);
      EntriesExact(lib, run, env, name, n);
      EachHas(names[..k], n);
    }
    forall n | n in names[..k] ensures n in run {
      EntriesExact(lib, run, env, name, n);
    }
  }

  // ---------- balance over whole runs ----------

  /** Every library but the root's has been attached as often as detached, and once more
      if it is running. */
  ghost predicate Balanced(db: Db, root: Name, calls: seq<Call>) {
    && (forall n :: n in db.mods && n != root && db.mods[n].inited ==> db.mods[n].image.dll)
    && forall n {:trigger Attached(n)} :: n != root ==>
         multiset(calls)[Attached(n)] == multiset(calls)[Detached(n)] + (if n in db.mods && db.mods[n].inited then 1 else 0)
  }

  lemma {:induction false} EachCounts(names: seq<Name>, n: Name)
    requires Distinct(names)
    ensures multiset(Each(names))[Attached(n)] == if n in names then 1 else 0
    ensures multiset(Each(names))[Detached(n)] == 0
  {
    if names != [] {
      DistinctTail(names);
      EachCounts(names[1..], n);
      assert multiset(Each(names)) == multiset{Attached(names[0])} + multiset(Each(names[1..]));
      assert n in names <==> n == names[0] || n in names[1..] by {
        assert names == [names[0]] + names[1..];
      }
    }
  }

  /** A removal keeps the balance. */
  lemma {:induction false} TakenBalanced(db: Db, db': Db, root: Name, calls: seq<Call>, calls': seq<Call>)
    requires Balanced(db, root, calls) && TakenDown(db, db', calls, calls')
    ensures Balanced(db', root, calls')
  {
    var down := calls'[|calls|..];
    assert calls' == calls + down;
    forall n {:trigger Attached(n)} | n != root
      ensures multiset(calls')[Attached(n)] == multiset(calls')[Detached(n)] + (if n in db'.mods && db'.mods[n].inited then 1 else 0)
    {
      assert multiset(down)[Attached(n)] == 0;
      assert multiset(down)[Detached(n)] == if Detached(n) in Gone(db, db') then 1 else 0;
      assert Detached(n) in Gone(db, db') <==> n in db.mods && n !in db'.mods && Running(db.mods[n]);
    }
  }

  /** A load keeps the balance, whether it succeeds or is rolled back. */
  lemma {:induction false} LoadBalanced(db: Db, root: Name, explicit: multiset<Name>, lib: Library, env: Env, name: Name, calls: seq<Call>, calls': seq<Call>)
    requires Inv(db, root, explicit) && Balanced(db, root, calls)
    requires LoadCalls(db, lib, env, name, Load(db, lib, env, name).ok, calls, calls')
    ensures Balanced(Load(db, lib, env, name).db, root, calls')
  {
    var r := Load(db, lib, env, name);
    if !r.ok {
      FailedLoadRestores(db, root, explicit, lib, env, name);
      if name !in db.mods && name in lib && Prepared(db, lib, env, name) {
        var names := Entries(lib, RunOf(db, lib, name), env, name);
        var k :| TurnedBack(names, env.uninit, k, calls, calls');
        EntriesOnce(lib, RunOf(db, lib, name), env, name);
        TurnedBackBalanced(db, root, names, env.uninit, k, calls, calls');
      }
    } else if name !in db.mods {
      NewBalanced(db, root, lib, env, name, calls);
    }
  }

  lemma {:induction false} TurnedBackBalanced(db: Db, root: Name, names: seq<Name>, uninit: set<Name>, k: nat, calls: seq<Call>, calls': seq<Call>)
    requires Balanced(db, root, calls) && Distinct(names) && TurnedBack(names, uninit, k, calls, calls')
    ensures Balanced(db, root, calls')
  {
    var up := calls + Each(names[..k]) + [Refused(names[k])];
    var down := calls'[|up|..];
    assert calls' == up + down;
    assert Distinct(names[..k]) by {
      forall i, j | 0 <= i < j < k ensures Apart(names[..k], i, j) {
        assert Apart(names, i, j);
      }
    }
    forall n {:trigger Attached(n)} | n != root
      ensures multiset(calls')[Attached(n)] == multiset(calls')[Detached(n)] + (if n in db.mods && db.mods[n].inited then 1 else 0)
    {
      EachCounts(names[..k], n);
      var gone := set m | m in names[..k] :: Detached(m);
      assert multiset(down)[Attached(n)] == 0 && multiset(down)[Detached(n)] == if Detached(n) in gone then 1 else 0;
      assert Detached(n) in gone <==> n in names[..k];
    }
  }

  lemma {:induction false} NewBalanced(db: Db, root: Name, lib: Library, env: Env, name: Name, calls: seq<Call>)
    requires Valid(db) && Balanced(db, root, calls) && name !in db.mods && name in lib && Load(db, lib, env, name).ok
    ensures Balanced(Load(db, lib, env, name).db, root, calls + Each(Entries(lib, RunOf(db, lib, name), env, name)))
  {
    var run := RunOf(db, lib, name);
    var db', names := Load(db, lib, env, name).db, Entries(lib, run, env, name);
    var calls' := calls + Each(names);
    EntriesOnce(lib, run, env, name);
    forall n | n in db'.mods && n != root && db'.mods[n].inited ensures db'.mods[n].image.dll {
      LoadMarks(db, lib, env, name, n);
      NewImages(db, lib, env, name, n);
    }
    forall n {:trigger Attached(n)} | n != root
      ensures multiset(calls')[Attached(n)] == multiset(calls')[Detached(n)] + (if n in db'.mods && db'.mods[n].inited then 1 else 0)
    {
      EachCounts(names, n);
      EntriesExact(lib, run, env, name, n);
      LoadMembers(db, lib, env, name, n);
      if n in db'.mods {
        LoadMarks(db, lib, env, name, n);
      }
    }
  }

  lemma {:induction false} LoadMembers(db: Db, lib: Library, env: Env, name: Name, n: Name)
    requires Valid(db) && name !in db.mods && name in lib && Load(db, lib, env, name).ok
    ensures n in Load(db, lib, env, name).db.mods <==> n in db.mods || n in RunOf(db, lib, name)
  {
    LinkValid(db, lib, RunOf(db, lib, name));
  }

  /** When all explicit loads have been given up and no cycle is left, every library that
      was ever attached has been detached as often. */
  lemma {:induction false} AllDetached(db: Db, root: Name, calls: seq<Call>, n: Name)
    requires Inv(db, root, multiset{}) && !HasCycle(LoadedGraph(db)) && Balanced(db, root, calls) && n != root
    ensures multiset(calls)[Attached(n)] == multiset(calls)[Detached(n)]
  {
    if n in db.mods {
      var c, path := EndlessImporters(db, root, [n]);
      assert false;
    }
  }
}
