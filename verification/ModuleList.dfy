/**
 The module loader over its store of records: links, counts and flags are changed
 in place. Every access is proved to hit a live record, and every method is proved
 against the function of ModuleDatabase that it computes.
 */
module ModuleList {
  import opened ImportResolution
  import opened ModuleDatabase
  import opened ModuleRuns
  import opened ModuleSafety
  import opened ModuleStore
  import opened EntryPoints

  /** The list after resolving, as the value-level load builds it. */
  lemma {:induction false} LinkedNow(db0: Db, db: Db, lib: Library, name: Name)
    requires Valid(db0) && name !in db0.mods && name in lib
    requires db == Spliced(Inserted(db0, |db0.order|, name, Mod(lib[name], 0, false, false)), |db0.order|, lib,
                           Resolve(lib, db0.mods.Keys + {name}, lib[name].Deps()).added)
    ensures db == Link(db0, lib, RunOf(db0, lib, name))
    ensures db.order[|db0.order|..] == RunOf(db0, lib, name) && db.order[|db.order| - 1] == name
  {
    ResolveSound(lib, db0.mods.Keys + {name}, lib[name].Deps());
    SplicedIsLink(db0, lib, name, Resolve(lib, db0.mods.Keys + {name}, lib[name].Deps()).added);
  }

  lemma {:induction false} NewRunSweeps(db0: Db, root: Name, explicit: multiset<Name>, lib: Library, env: Env, name: Name)
    requires Inv(db0, root, explicit) && name !in db0.mods && name in lib
    ensures var run := RunOf(db0, lib, name);
            var linked := Link(db0, lib, run);
            && Valid(linked) && Sweepable(linked) && linked.order[|db0.order|..] == run
            && AttachFrom(linked, |db0.order|, env, name) == Attach(linked, run, env, name)
            && Sweepable(Attach(linked, run, env, name).db)
  {
    var run := RunOf(db0, lib, name);
    var linked := Link(db0, lib, run);
    LinkValid(db0, lib, run);
    LinkExtends(db0, lib, run);
    AttachExtends(db0, linked, run, env, name);
    ExtendsSweepable(db0, linked, run);
    ExtendsSweepable(db0, Attach(linked, run, env, name).db, run);
  }

  /** A load of a new module in terms of positions in the list. */
  ghost function LoadFrom(linked: Db, lo: nat, resolved: bool, env: Env, name: Name): Loaded
    requires Valid(linked) && lo <= |linked.order| && name in linked.mods
  {
    InOrder(linked);
    Complete(linked, linked.order[lo..], resolved, env, name)
  }

  lemma {:induction false} NewLoadFrom(db0: Db, lib: Library, env: Env, name: Name)
    requires Valid(db0) && name !in db0.mods && name in lib
    ensures var linked := Link(db0, lib, RunOf(db0, lib, name));
            && Valid(linked) && name in linked.mods && linked.order[|db0.order|..] == RunOf(db0, lib, name)
            && LoadNew(db0, lib, env, name)
               == LoadFrom(linked, |db0.order|, Resolve(lib, db0.mods.Keys + {name}, lib[name].Deps()).ok, env, name)
  {
    LinkValid(db0, lib, RunOf(db0, lib, name));
  }

  // ---------- the calls of one load ----------

  /** The call made for module n, if one is made. */
  ghost function Asked(db: Db, n: Name, env: Env, main: Name): seq<Call>
    requires n in db.mods
  {
    if !Calls(db, n, env, main) then [] else if n in env.uninit then [Refused(n)] else [Attached(n)]
  }

  /** The calls still due for the modules from position p on. */
  ghost function Pending(db: Db, env: Env, main: Name, p: nat): seq<Call>
    requires p <= |db.order|
  {
    Calling(Entries(LoadedGraph(db), db.order[p..], env, main), env.uninit)
  }

  lemma {:induction false} PendingStep(db: Db, env: Env, main: Name, p: nat)
    requires p < |db.order| && db.order[p] in db.mods
    ensures var n, r := db.order[p], AttachOne(db, db.order[p], env, main);
            && r.db.order == db.order
            && Pending(db, env, main, p) == Asked(db, n, env, main) + if r.ok then Pending(r.db, env, main, p + 1) else []
  {
    var n, g, r := db.order[p], LoadedGraph(db), AttachOne(db, db.order[p], env, main);
    assert db.order[p..][0] == n && db.order[p..][1..] == db.order[p + 1..];
    assert LoadedGraph(r.db) == g;
    var rest := Entries(g, db.order[p + 1..], env, main);
    if Calls(db, n, env, main) {
      assert Entries(g, db.order[p..], env, main) == [n] + rest;
    } else {
      assert Entries(g, db.order[p..], env, main) == rest;
    }
  }

  /** Calling the entry points one by one from position p on leads to the given result
      and calls. */
  ghost predicate Notifying(db: Db, calls: seq<Call>, env: Env, main: Name, p: nat, goal: Loaded, all: seq<Call>)
    decreases |db.order| - p
  {
    if p >= |db.order| then p == |db.order| && Loaded(true, db) == goal && calls == all
    else
      var n := db.order[p];
      && n in db.mods
      && var r, calls' := AttachOne(db, n, env, main), calls + Asked(db, n, env, main);
         && r.db.order == db.order
         && if r.ok then Notifying(r.db, calls', env, main, p + 1, goal, all) else r == goal && calls' == all
  }

  lemma {:induction false} NotifyingAll(db: Db, calls: seq<Call>, env: Env, main: Name, p: nat)
    requires Valid(db) && p <= |db.order|
    ensures Notifying(db, calls, env, main, p, AttachFrom(db, p, env, main), calls + Pending(db, env, main, p))
    decreases |db.order| - p
  {
    if p == |db.order| {
      assert db.order[p..] == [];
    } else {
      AttachFromNext(db, env, main, p);
      var n := db.order[p];
      var r := AttachOne(db, n, env, main);
      CallsJoin(calls, Asked(db, n, env, main), if r.ok then Pending(r.db, env, main, p + 1) else [],
                Pending(db, env, main, p)) by {
        PendingStep(db, env, main, p);
      }
      if r.ok {
        NotifyingAll(r.db, calls + Asked(db, n, env, main), env, main, p + 1);
      }
    }
  }

  lemma {:induction false} CallsJoin(a: seq<Call>, b: seq<Call>, c: seq<Call>, d: seq<Call>)
    requires d == b + c
    ensures a + d == a + b + c && (c == [] ==> a + d == a + b)
  {
  }

  /** The calls made for a run that has been linked in. */
  ghost predicate CompleteCalls(linked: Db, run: seq<Name>, env: Env, name: Name, r: Loaded, calls: seq<Call>, calls': seq<Call>)
    requires forall n :: n in run ==> n in linked.mods
  {
    if exists n :: n in run && !Bindable(linked, n, env) then TakenDown(linked, r.db, calls, calls')
    else
      var up := calls + Calling(Entries(LoadedGraph(linked), run, env, name), env.uninit);
      if r.ok then calls' == up else TakenDown(Attach(linked, run, env, name).db, r.db, up, calls')
  }

  /** Modules that have only been linked in are taken out without a call. */
  lemma {:induction false} NothingToDetach(db: Db, lib: Library, name: Name, calls: seq<Call>, calls': seq<Call>)
    requires name in lib && name !in db.mods
    requires TakenDown(Link(db, lib, RunOf(db, lib, name)), db, calls, calls')
    ensures calls' == calls
  {
    var run := RunOf(db, lib, name);
    forall n | n in Link(db, lib, run).mods && n !in db.mods ensures !Running(Link(db, lib, run).mods[n]) {
      assert n in run;
    }
    var down := calls'[|calls|..];
    assert |multiset(down)| == |down| == 0;
    assert calls' == calls + down;
  }

  lemma {:induction false} MissingCalls(db: Db, root: Name, explicit: multiset<Name>, lib: Library, env: Env, name: Name, calls: seq<Call>, calls': seq<Call>)
    requires Inv(db, root, explicit) && name in lib && name !in db.mods
    requires !Resolve(lib, db.mods.Keys + {name}, lib[name].Deps()).ok
    requires TakenDown(Link(db, lib, RunOf(db, lib, name)), LoadNew(db, lib, env, name).db, calls, calls')
    ensures LoadCalls(db, lib, env, name, false, calls, calls')
  {
    assert Load(db, lib, env, name) == LoadNew(db, lib, env, name);
    FailedLoadRestores(db, root, explicit, lib, env, name);
    NothingToDetach(db, lib, name, calls, calls');
  }

  lemma {:induction false} NewCalls(db: Db, root: Name, explicit: multiset<Name>, lib: Library, env: Env, name: Name, ok: bool, calls: seq<Call>, calls': seq<Call>)
    requires Inv(db, root, explicit) && name in lib && name !in db.mods && ok == LoadNew(db, lib, env, name).ok
    requires Resolve(lib, db.mods.Keys + {name}, lib[name].Deps()).ok
    requires var run := RunOf(db, lib, name);
             CompleteCalls(Link(db, lib, run), run, env, name, LoadNew(db, lib, env, name), calls, calls')
    ensures LoadCalls(db, lib, env, name, ok, calls, calls')
  {
    var run := RunOf(db, lib, name);
    var linked := Link(db, lib, run);
    RunClosed(db, lib, name);
    LinkValid(db, lib, run);
    NewEntries(db, lib, env, name);
    assert Load(db, lib, env, name) == LoadNew(db, lib, env, name);
    if !ok {
      FailedLoadRestores(db, root, explicit, lib, env, name);
      if Prepared(db, lib, env, name) {
        assert forall n :: n in run ==> Bindable(linked, n, env);
        SweepCalls(db, lib, env, name, calls, calls');
      } else {
        var n :| n in run && (n in env.unrelocatable || n in env.unbound);
        assert !Bindable(linked, n, env);
        NothingToDetach(db, lib, name, calls, calls');
      }
    } else {
      var names := Entries(lib, run, env, name);
      forall n | n in names ensures n !in env.uninit {
        EntriesExact(lib, run, env, name, n);
        AttachOkIff(linked, run, env, name);
        assert Calls(linked, n, env, name);
      }
      CallingAll(names, env.uninit);
    }
  }

  class ModDb {
    var heap: Store
    var modules: Ptr
    ghost var nodes: seq<Ptr>
    ghost var db: Db
    /** The calls of entry points so far, oldest first. */
    ghost var calls: seq<Call>

    ghost predicate Ok()
      reads this
    {
      Repr(heap, modules, nodes, db)
    }

    /** m is the record at position p of a run that ends with mod, the last record. */
    ghost predicate At(m: Ptr, mod: Ptr, p: nat)
      reads this`nodes
    {
      p < |nodes| && nodes[p] == m && nodes[|nodes| - 1] == mod
    }

    // ---------- invariants of the loops ----------

    // The predicates of the other modules for the database and the records as they are.
    // Under a name of this class an invariant is kept as one fact, and it is taken apart
    // only by the lemma that makes the step. That keeps the proofs of the loops small.

    ghost predicate SweepState(db0: Db, i: nat)
      reads this
    {
      Sweeping(db0, db, i)
    }

    ghost predicate BoundState(env: Env, lo: nat, p: nat)
      reads this
    {
      BoundTo(db, env, lo, p)
    }

    ghost predicate AttachState(env: Env, main: Name, p: nat, goal: Loaded, all: seq<Call>)
      reads this
    {
      Notifying(db, calls, env, main, p, goal, all)
    }

    ghost predicate RecountState(p: nat, goal: Db)
      reads this
    {
      Recounting(db, p, goal)
    }

    ghost predicate CountState(db0: Db, imports: seq<Name>, k: nat)
      reads this
    {
      Counting(db0, db, imports, k)
    }

    ghost predicate SameRecords(nodes0: seq<Ptr>, db0: Db)
      reads this
    {
      Survive(nodes0, db0, nodes, db)
    }

    ghost predicate RemoveState(db0: Db, a: Around, held: set<Desc>, n: Name, deps: seq<Name>, k: nat)
      reads this
    {
      Midway(db0, db, a, held, n, deps, k)
    }

    ghost predicate DownState(db0: Db, calls0: seq<Call>)
      reads this
    {
      TakenDown(db0, db, calls0, calls)
    }

    /** Sets up the database with its initial module. */
    constructor (root: Name, image: Image)
      ensures Ok() && db == Initial(root, image).db && calls == [] && Balanced(db, root, calls)
    {
      heap := map[1 := Node(root, image, 1, 1, 1, true, true)];
      modules, nodes := 1, [1];
      db, calls := Initial(root, image).db, [];
      assert [root][0] in Elements([root]);
      new;
      assert NodeOk(heap, nodes, db, 0);
    }

    /** An unused address. */
    method Malloc() returns (p: Ptr)
      ensures p !in heap && p != NULL
    {
      p := 1;
      ghost var seen: set<Ptr> := {};
      while p in heap
        invariant p != NULL && forall q :: q in seen ==> q < p
        decreases heap.Keys - seen
      {
        seen := seen + {p};
        p := p + 1;
      }
    }

    /** The link updates that put record n right before record m. */
    method LinkIn(m: Ptr, n: Ptr)
      requires m in heap && n in heap && heap[m].prev in heap && n != m && n != heap[m].prev
      modifies this`heap
      ensures heap == LinkBefore(old(heap), m, n)
    {
      heap := heap[n := heap[n].(next := m, prev := heap[m].prev)];
      heap := heap[heap[m].prev := heap[heap[m].prev].(next := n)];
      heap := heap[m := heap[m].(prev := n)];
    }

    /** Links a new, uncounted module in before the record m, at position i. */
    method InsertBefore(m: Ptr, name: Name, image: Image, ghost i: nat) returns (n: Ptr)
      requires Ok() && 0 < i <= |nodes| && Before(nodes, i) == m && name !in db.mods
      modifies this`heap, this`nodes, this`db
      ensures Ok()
      ensures nodes == InsertAt(old(nodes), i, n)
      ensures db == Inserted(old(db), i, name, Mod(image, 0, false, false))
    {
      n := Malloc();
      InsertRepr(heap, modules, nodes, db, i, n, Node(name, image, NULL, NULL, 0, false, false));
      heap := heap[n := Node(name, image, NULL, NULL, 0, false, false)];
      LinkIn(m, n);
      nodes, db := InsertAt(nodes, i, n), Inserted(db, i, name, Mod(image, 0, false, false));
    }

    /** The record of the module with the given name, found by walking the ring. */
    method GetModule(name: Name) returns (m: Ptr, ghost i: nat)
      requires Ok()
      ensures m == NULL <==> name !in db.mods
      ensures m != NULL ==> i < |nodes| && nodes[i] == m && db.order[i] == name && m in heap
    {
      m, i := modules, 0;
      while true
        invariant i < |nodes| && m == nodes[i]
        invariant forall k :: 0 <= k < i ==> db.order[k] != name
        decreases |nodes| - i
      {
        assert NodeOk(heap, nodes, db, i);
        if heap[m].name == name {
          return;
        }
        m := heap[m].next;
        if i + 1 < |nodes| {
          NodesDiffer(heap, modules, nodes, db, 0, i + 1);
        }
        if m == modules {
          break;
        }
        i := i + 1;
      }
      assert forall k :: 0 <= k < |db.order| ==> db.order[k] != name;
      m := NULL;
    }

    /** Adds delta to the count of the record at position i. */
    method AddRef(m: Ptr, delta: int, ghost i: nat)
      requires Ok() && i < |nodes| && nodes[i] == m
      modifies this`heap, this`db
      ensures Ok() && old(db).order[i] in old(db).mods && db == Bump(old(db), old(db).order[i], delta)
    {
      AddCountRepr(heap, modules, nodes, db, i, delta);
      heap := AddCount(heap, m, delta);
      db := Bump(db, db.order[i], delta);
    }

    /** Loads what mod, the record at position i, imports and is not there yet.
        Returns the first record of the new run, or NULL if something is missing. */
    method ResolveImports(lib: Library, mod: Ptr, ghost i: nat) returns (modlist: Ptr, ghost added: seq<Ptr>)
      requires Ok() && 0 < i < |nodes| && nodes[i] == mod && mod in heap
      modifies this`heap, this`nodes, this`db
      ensures Ok()
      ensures var r := Resolve(lib, old(db.mods.Keys), old(heap[mod].image.Deps()));
              && (modlist != NULL <==> r.ok)
              && nodes == Splice(old(nodes), i, added) && |added| == |r.added|
              && db == Spliced(old(db), i, lib, r.added)
              && (r.ok ==> modlist == First(added, mod))
      decreases lib.Keys - db.mods.Keys, 1, 2
    {
      var deps := heap[mod].image.Deps();
      ghost var g := Progress(i, nodes, db, [], []);
      modlist, added := mod, [];
      PartialStart(lib, db.mods.Keys, deps);
      SplicedNothing(db, nodes, i, lib);
      var k := 0;
      while k < |deps|
        invariant Ok() && k <= |deps| && g.i == i && g.nodes0 == old(nodes) && g.db0 == old(db)
        invariant g.Reached(lib, deps, k, nodes, db) && modlist == First(g.added, mod)
      {
        FirstOfRun(heap, modules, nodes, db, i, g.nodes0, g.added);
        var first;
        first, g := ResolveNext(lib, mod, deps, k, g);
        added := g.added;
        if first == NULL {
          modlist := NULL;
          return;
        }
        if modlist == mod {
          modlist := first;
        }
        k := k + 1;
      }
      added := g.added;
      PartialDone(lib, g.db0.mods.Keys, deps, g.names);
      FirstOfRun(heap, modules, nodes, db, i, g.nodes0, g.added);
    }

    /** Resolves descriptor k. */
    method ResolveNext(lib: Library, mod: Ptr, deps: seq<Name>, k: nat, ghost g: Progress) returns (first: Ptr, ghost g': Progress)
      requires Ok() && k < |deps| && g.Reached(lib, deps, k, nodes, db) && 0 < g.i && g.nodes0[g.i] == mod
      modifies this`heap, this`nodes, this`db
      ensures Ok() && g'.i == g.i && g'.nodes0 == g.nodes0 && g'.db0 == g.db0
      ensures first != NULL ==> g'.Reached(lib, deps, k + 1, nodes, db)
      ensures first != NULL ==> First(g'.added, mod) == if g.added == [] then first else First(g.added, mod)
      ensures first == NULL ==> Failed(g', lib, deps)
      decreases lib.Keys - db.mods.Keys, 1, 1
    {
      ghost var nodes1, db1 := nodes, db;
      ghost var run;
      first, run := Require(lib, mod, deps[k], g.i + |g.added|);
      ProgressStep(g, lib, deps, k, nodes1, db1, run, nodes, db);
      FirstJoin(g.added, run, mod);
      g' := g.(added := g.added + run, names := g.names + Resolve(lib, db1.mods.Keys, [deps[k]]).added);
    }

    /** The resolution has failed with what has been linked in so far. */
    ghost predicate Failed(g: Progress, lib: Library, deps: seq<Name>)
      reads this
    {
      && g.i < |g.nodes0| == |g.db0.order| && |g.added| == |g.names|
      && nodes == Splice(g.nodes0, g.i, g.added) && db == Spliced(g.db0, g.i, lib, g.names)
      && Resolve(lib, g.db0.mods.Keys, deps) == Resolution(false, g.names)
    }

    /** Makes sure the module with the given name is there, loading it and what it
        imports in front of mod if it is not. */
    method Require(lib: Library, mod: Ptr, name: Name, ghost i: nat) returns (first: Ptr, ghost run: seq<Ptr>)
      requires Ok() && 0 < i < |nodes| && nodes[i] == mod
      modifies this`heap, this`nodes, this`db
      ensures Ok()
      ensures var r := Resolve(lib, old(db.mods.Keys), [name]);
              && (first != NULL <==> r.ok)
              && nodes == Splice(old(nodes), i, run) && |run| == |r.added|
              && db == Spliced(old(db), i, lib, r.added)
              && (r.ok ==> first == First(run, mod))
      decreases lib.Keys - db.mods.Keys, 1, 0
    {
      ResolveOne(lib, db.mods.Keys, name);
      assert NodeOk(heap, nodes, db, i);
      SplicedNothing(db, nodes, i, lib);
      first, run := mod, [];
      var newmod, _ := GetModule(name);
      if newmod == NULL {
        if name in lib {
          first, run := LoadDependency(lib, mod, name, i);
        } else {
          first := NULL;
        }
      }
    }

    /** Links one new dependency in before mod and loads what it imports. */
    method LoadDependency(lib: Library, mod: Ptr, name: Name, ghost i: nat) returns (modlist: Ptr, ghost run: seq<Ptr>)
      requires Ok() && 0 < i < |nodes| && nodes[i] == mod && name !in db.mods && name in lib
      modifies this`heap, this`nodes, this`db
      ensures Ok()
      ensures var r := Resolve(lib, old(db.mods.Keys) + {name}, lib[name].Deps());
              && (modlist != NULL <==> r.ok)
              && nodes == Splice(old(nodes), i, run) && |run| == |r.added| + 1
              && db == Spliced(old(db), i, lib, r.added + [name])
              && (r.ok ==> modlist == run[0])
      decreases lib.Keys - db.mods.Keys, 0, 0
    {
      ghost var nodes0, db0 := nodes, db;
      var newmod := InsertBefore(mod, name, lib[name], i);
      assert db.mods.Keys == db0.mods.Keys + {name};
      assert NodeOk(heap, nodes, db, i);
      modlist, run := ResolveImports(lib, newmod, i);
      SpliceInsert(nodes0, i, newmod, run);
      ghost var r := Resolve(lib, db0.mods.Keys + {name}, lib[name].Deps());
      SplicedInsert(db0, i, lib, name, r.added);
      run := run + [newmod];
    }

    /** Unlinks and frees the record at position i. */
    method Free(mod: Ptr, ghost i: nat)
      requires Ok() && 0 < i < |nodes| && nodes[i] == mod
      modifies this`heap, this`nodes, this`db
      ensures Ok() && nodes == RemoveAt(old(nodes), i) && db == Delete(old(db), old(db.order[i]))
    {
      RemoveRepr(heap, modules, nodes, db, i);
      heap := Unlink(heap, mod) - {mod};
      nodes, db := RemoveAt(nodes, i), Delete(db, db.order[i]);
    }

    /** Gives up one reference to the module named d, removing it with the last. */
    method DropReference(d: Name, ghost a: Around, ghost held: set<Desc>)
      requires Ok() && d in db.mods
      requires db.mods[d].refcnt == 1 ==> Removable(Bump(db, d, -1), a, held, d) && Live(Bump(db, d, -1)) < Live(db)
      requires RootFirst(db, a)
      modifies this`heap, this`nodes, this`db, this`calls
      ensures Ok() && db == Dropped(old(db), d) && Survive(old(nodes), old(db), nodes, db)
      ensures TakenDown(old(db), db, old(calls), calls)
      decreases Live(db), 0
    {
      ghost var nodes0, db0, calls0 := nodes, db, calls;
      var dep, j := GetModule(d);
      AddRef(dep, -1, j);
      ghost var db1 := db;
      SurviveRefl(nodes0, db0, db1);
      NothingTaken(db0, db1, calls0);
      assert NodeOk(heap, nodes, db, j);
      if heap[dep].refcnt == 0 {
        RemoveModule(dep, j, a, held);
        SurviveTrans(nodes0, db0, nodes0, db1, nodes, db);
        TakenJoin(db0, db1, db, calls0, calls0, calls);
      }
    }

    /** Calls the entry point of mod, the record at position i, if it is a running library. */
    method Detach(mod: Ptr, ghost i: nat)
      requires Ok() && i < |nodes| && nodes[i] == mod
      modifies this`calls
      ensures old(db.order[i]) in db.mods
      ensures var n := old(db.order[i]); calls == old(calls) + Goodbye(db.mods[n], n)
    {
      assert NodeOk(heap, nodes, db, i);
      if heap[mod].inited && heap[mod].image.dll {
        calls := calls + [Detached(heap[mod].name)];
      }
    }

    /** Gives up the counted imports of mod, the record at position i, which ends up at
        position at. */
    method ReleaseImports(mod: Ptr, ghost i: nat, ghost a: Around, ghost held: set<Desc>) returns (ghost at: nat)
      requires Ok() && 0 < i < |nodes| && nodes[i] == mod && mod in heap && RootFirst(db, a)
      requires heap[mod].refed && Removable(db, a, held, db.order[i])
      modifies this`heap, this`nodes, this`db, this`calls
      ensures Ok() && 0 < at < |nodes| && nodes[at] == mod && db.order[at] == old(db.order[i])
      ensures old(db.order[i]) in old(db.mods) && db == Release(old(db), old(db).mods[old(db.order[i])].image.Deps())
      ensures Survive(old(nodes), old(db), nodes, db)
      ensures TakenDown(old(db), db, old(calls), calls)
      decreases Live(db), 1, 0
    {
      ghost var nodes0, db0, n, calls0 := nodes, db, db.order[i], calls;
      assert NodeOk(heap, nodes, db, i);
      NodesDiffer(heap, modules, nodes, db, 0, i);
      SurviveRefl(nodes, db, db);
      NothingTaken(db, db, calls);
      var deps := heap[mod].image.Deps();
      ghost var b, h := a.(dying := a.dying + {n}), held;
      ReleasingStart(db, a, held, n);
      assert deps[0..] == deps;
      var k := 0;
      while k < |deps|
        invariant Ok() && k <= |deps| && RemoveState(db0, b, h, n, deps, k)
        invariant SameRecords(nodes0, db0) && DownState(db0, calls0)
      {
        ghost var nodes1, db1, h1, calls1 := nodes, db, h, calls;
        h := MidwayStep(db0, db, b, h1, n, deps, k);
        DropReference(deps[k], b, h1 - {Desc(n, k)});
        SurviveTrans(nodes0, db0, nodes1, db1, nodes, db);
        TakenJoin(db0, db1, db, calls0, calls1, calls);
        k := k + 1;
      }
      MidwayDone(db0, db, b, h, n, deps);
      at := FindAgain(heap, modules, nodes, db, nodes0, db0, i);
    }

    /** Removes mod, the record at position i: calls its entry point if it is a running
        library, gives up its counted imports one by one, removing what becomes unused,
        then unlinks and frees it. */
    method RemoveModule(mod: Ptr, ghost i: nat, ghost a: Around, ghost held: set<Desc>)
      requires Ok() && 0 < i < |nodes| && nodes[i] == mod && mod in heap && RootFirst(db, a)
      requires heap[mod].refed ==> Removable(db, a, held, db.order[i])
      modifies this`heap, this`nodes, this`db, this`calls
      ensures Ok() && old(db.order[i]) in old(db.mods) && db == Remove(old(db), old(db.order[i]))
      ensures Survive(old(nodes), old(db), nodes, db)
      ensures TakenDown(old(db), db, old(calls), calls)
      ensures var n := old(db.order[i]); old(calls) + Goodbye(old(db).mods[n], n) <= calls
      decreases Live(db), 1
    {
      ghost var nodes0, db0, n, at, calls0 := nodes, db, db.order[i], i, calls;
      assert NodeOk(heap, nodes, db, i);
      NodesDiffer(heap, modules, nodes, db, 0, i);
      SurviveRefl(nodes, db, db);
      Detach(mod, i);
      ghost var calls1 := calls;
      NothingTaken(db, db, calls1);
      if heap[mod].refed {
        at := ReleaseImports(mod, i, a, held);
      }
      ghost var db2, nodes2 := db, nodes;
      SurviveRemoveAt(nodes, db, at);
      TakenLast(db0, db, n, calls0, calls);
      Free(mod, at);
      SurviveTrans(nodes0, db0, nodes2, db2, nodes, db);
    }

    /** The sweep after a failed load. */
    method FreeUnusedModules()
      requires Ok() && Sweepable(db)
      modifies this`heap, this`nodes, this`db, this`calls
      ensures Ok() && db == FreeUnused(old(db))
      ensures TakenDown(old(db), db, old(calls), calls)
    {
      NothingTaken(db, db, calls);
      var mod := modules;
      ghost var i := 0;
      while true
        invariant Ok() && i < |nodes| && nodes[i] == mod && SweepState(old(db), i)
        invariant DownState(old(db), old(calls))
        decreases db.mods.Keys, |nodes| - i
      {
        assert NodeOk(heap, nodes, db, i);
        SweepingStep(old(db), db, i);
        if heap[mod].refcnt == 0 {
          ghost var db1, calls1 := db, calls;
          RemoveModule(mod, i, Around(db.order[0], multiset{}, {}), {});
          TakenJoin(old(db), db1, db, old(calls), calls1, calls);
          mod, i := modules, 0;
        } else {
          mod := heap[mod].next;
          if i + 1 < |nodes| {
            NodesDiffer(heap, modules, nodes, db, 0, i + 1);
          }
          i := i + 1;
          if mod == modules {
            break;
          }
        }
      }
      SweepingDone(old(db), db);
    }

    /** Counts the imports of mod, the record at position i, unless it was done. */
    method UpdateCounts(mod: Ptr, ghost i: nat)
      requires Ok() && i < |nodes| && nodes[i] == mod
      modifies this`heap, this`db
      ensures Ok() && old(db.order[i]) in old(db.mods) && db == UpdateRefcount(old(db), old(db.order[i]))
    {
      assert NodeOk(heap, nodes, db, i);
      if heap[mod].refed || !heap[mod].image.hasImports {
        return;
      }
      var imports := heap[mod].image.imports;
      CountingStart(db, imports);
      var k := 0;
      while k < |imports|
        invariant Ok() && k <= |imports| && CountState(old(db), imports, k)
      {
        CountingStep(old(db), db, imports, k);
        var dep, j := GetModule(imports[k]);
        if dep != NULL {
          AddRef(dep, 1, j);
        }
        k := k + 1;
      }
      CountingDone(old(db), db, old(db.order[i]));
      MarkRefed(mod, i);
    }

    method MarkRefed(mod: Ptr, ghost i: nat)
      requires Ok() && i < |nodes| && nodes[i] == mod
      modifies this`heap, this`db
      ensures Ok() && old(db.order[i]) in old(db.mods) && db == WithRefed(old(db), old(db.order[i]))
    {
      SetRefedRepr(heap, modules, nodes, db, i);
      heap := SetRefed(heap, mod);
      db := WithRefed(db, db.order[i]);
    }

    method MarkInited(mod: Ptr, ghost i: nat)
      requires Ok() && i < |nodes| && nodes[i] == mod
      modifies this`heap, this`db
      ensures Ok() && old(db.order[i]) in old(db.mods) && db == WithInited(old(db), old(db.order[i]))
    {
      SetInitedRepr(heap, modules, nodes, db, i);
      heap := SetInited(heap, mod);
      db := WithInited(db, db.order[i]);
    }

    /** Steps from m, the record at position p, to the next, unless m is the last. */
    method Advance(m: Ptr, mod: Ptr, ghost p: nat) returns (next: Ptr, last: bool)
      requires Ok() && p < |nodes| && nodes[p] == m && nodes[|nodes| - 1] == mod
      ensures last == (p == |nodes| - 1) && (!last ==> next == nodes[p + 1])
    {
      if p < |nodes| - 1 {
        NodesDiffer(heap, modules, nodes, db, p, |nodes| - 1);
      }
      assert NodeOk(heap, nodes, db, p);
      next, last := heap[m].next, m == mod;
    }

    /** Relocates and binds one module: every import must be in the list. */
    method BindModule(m: Ptr, env: Env, ghost p: nat) returns (ok: bool)
      requires Ok() && p < |nodes| && nodes[p] == m
      ensures db.order[p] in db.mods && (ok <==> Bindable(db, db.order[p], env))
    {
      assert NodeOk(heap, nodes, db, p);
      if heap[m].name in env.unrelocatable || heap[m].name in env.unbound {
        return false;
      }
      var deps := heap[m].image.Deps();
      var k := 0;
      while k < |deps|
        invariant k <= |deps| && forall j :: 0 <= j < k ==> deps[j] in db.mods
      {
        var expmod, _ := GetModule(deps[k]);
        if expmod == NULL {
          return false;
        }
        k := k + 1;
      }
      return true;
    }

    /** Relocates and binds the new modules, from modlist to mod. */
    method BindRun(modlist: Ptr, mod: Ptr, env: Env, ghost lo: nat) returns (ok: bool)
      requires Ok() && At(modlist, mod, lo)
      ensures ok <==> forall n :: n in db.order[lo..] ==> n in db.mods && Bindable(db, n, env)
    {
      var m := modlist;
      ghost var p := lo;
      var last := false;
      ok := true;
      while !last
        invariant lo <= p <= |nodes| && BoundState(env, lo, p)
        invariant if last then p == |nodes| && ok else p < |nodes| && nodes[p] == m
        decreases |nodes| - p
      {
        ok := BindModule(m, env, p);
        assert db.order[lo..][p - lo] == db.order[p];
        if !ok {
          return;
        }
        m, last := Advance(m, mod, p);
        p := p + 1;
      }
      BoundRun(db, env, lo);
    }

    /** Calls the entry point of m, the record at position p, if it is a library to be
        initialized. */
    method CallEntry(m: Ptr, env: Env, main: Name, ghost p: nat) returns (ok: bool)
      requires Ok() && p < |nodes| && nodes[p] == m
      modifies this`heap, this`db, this`calls
      ensures Ok() && old(db.order[p]) in old(db.mods)
      ensures Loaded(ok, db) == AttachOne(old(db), old(db.order[p]), env, main)
      ensures calls == old(calls) + Asked(old(db), old(db.order[p]), env, main)
    {
      assert NodeOk(heap, nodes, db, p);
      ok := true;
      if heap[m].image.dll && !(env.noInit && heap[m].name == main) {
        if heap[m].name in env.uninit {
          calls := calls + [Refused(heap[m].name)];
          ok := false;
        } else {
          calls := calls + [Attached(heap[m].name)];
          MarkInited(m, p);
        }
      }
    }

    /** One step of going through the new modules. */
    method CallNext(m: Ptr, mod: Ptr, env: Env, main: Name, ghost p: nat, ghost goal: Loaded, ghost all: seq<Call>)
      returns (ok: bool, next: Ptr, last: bool)
      requires Ok() && At(m, mod, p) && AttachState(env, main, p, goal, all)
      modifies this`heap, this`db, this`calls
      ensures Ok() && if ok && !last then At(next, mod, p + 1) && AttachState(env, main, p + 1, goal, all)
                      else Loaded(ok, db) == goal && calls == all
    {
      assert Notifying(db, calls, env, main, p, goal, all);
      ok := CallEntry(m, env, main, p);
      next, last := m, false;
      if ok {
        assert Notifying(db, calls, env, main, p + 1, goal, all);
        next, last := Advance(m, mod, p);
      }
    }

    /** Goes through the new modules, from modlist to mod. */
    method CallAll(modlist: Ptr, mod: Ptr, env: Env, main: Name, ghost lo: nat, ghost goal: Loaded, ghost all: seq<Call>) returns (ok: bool)
      requires Ok() && At(modlist, mod, lo) && AttachState(env, main, lo, goal, all)
      modifies this`heap, this`db, this`calls
      ensures Ok() && Loaded(ok, db) == goal && calls == all
    {
      var m := modlist;
      ghost var p := lo;
      var last := false;
      ok := true;
      while ok && !last
        invariant Ok()
        invariant if ok && !last then At(m, mod, p) && AttachState(env, main, p, goal, all)
                  else Loaded(ok, db) == goal && calls == all
        decreases |nodes| - p
      {
        ok, m, last := CallNext(m, mod, env, main, p, goal, all);
        p := p + 1;
      }
    }

    /** Calls the entry points of the new modules, from modlist to mod. */
    method AttachRun(modlist: Ptr, mod: Ptr, env: Env, main: Name, ghost lo: nat) returns (ok: bool)
      requires Ok() && At(modlist, mod, lo)
      modifies this`heap, this`db, this`calls
      ensures Ok() && Loaded(ok, db) == AttachFrom(old(db), lo, env, main)
      ensures calls == old(calls) + Pending(old(db), env, main, lo)
    {
      NotifyingAll(db, calls, env, main, lo);
      ok := CallAll(modlist, mod, env, main, lo, AttachFrom(db, lo, env, main), calls + Pending(db, env, main, lo));
    }

    /** One step of counting the imports of the new modules. */
    method CountNext(m: Ptr, mod: Ptr, ghost p: nat, ghost goal: Db) returns (next: Ptr, last: bool)
      requires Ok() && At(m, mod, p) && RecountState(p, goal)
      modifies this`heap, this`db
      ensures Ok() && if last then db == goal else At(next, mod, p + 1) && RecountState(p + 1, goal)
    {
      assert Recounting(db, p, goal);
      UpdateCounts(m, p);
      assert Recounting(db, p + 1, goal);
      next, last := Advance(m, mod, p);
    }

    method CountAll(modlist: Ptr, mod: Ptr, ghost lo: nat, ghost goal: Db)
      requires Ok() && At(modlist, mod, lo) && RecountState(lo, goal)
      modifies this`heap, this`db
      ensures Ok() && db == goal
    {
      var m := modlist;
      ghost var p := lo;
      var last := false;
      while !last
        invariant Ok() && if last then db == goal else At(m, mod, p) && RecountState(p, goal)
        decreases |nodes| - p
      {
        m, last := CountNext(m, mod, p, goal);
        p := p + 1;
      }
    }

    /** Counts the imports of the new modules, from modlist to mod. */
    method UpdateRun(modlist: Ptr, mod: Ptr, ghost lo: nat)
      requires Ok() && At(modlist, mod, lo)
      modifies this`heap, this`db
      ensures Ok() && db == UpdateFrom(old(db), lo)
    {
      RecountingAll(db, lo);
      CountAll(modlist, mod, lo, UpdateFrom(db, lo));
    }

    /** Loads the module with the given name, or counts one more load of it. */
    method LoadModule(lib: Library, env: Env, name: Name, ghost root: Name, ghost explicit: multiset<Name>) returns (mod: Ptr)
      requires Ok() && Inv(db, root, explicit)
      modifies this`heap, this`nodes, this`db, this`calls
      ensures Ok() && Loaded(mod != NULL, db) == Load(old(db), lib, env, name)
      ensures LoadCalls(old(db), lib, env, name, mod != NULL, old(calls), calls)
      ensures old(Balanced(db, root, calls)) ==> Balanced(db, root, calls)
      ensures Inv(db, root, if mod != NULL then explicit + multiset{name} else explicit)
      ensures mod != NULL ==> mod in heap && heap[mod].name == name
    {
      LoadKeepsInv(db, root, explicit, lib, env, name);
      ghost var i;
      mod, i := GetModule(name);
      if mod != NULL {
        AddRef(mod, 1, i);
        assert NodeOk(heap, nodes, db, i);
      } else if name in lib {
        mod := LoadNewModule(lib, env, name, root, explicit);
      }
      if old(Balanced(db, root, calls)) {
        LoadBalanced(old(db), root, explicit, lib, env, name, old(calls), calls);
      }
    }

    /** Links a new module in before the root, with all it imports in front of it. */
    method LinkNewModule(lib: Library, name: Name) returns (mod: Ptr, modlist: Ptr)
      requires Ok() && name !in db.mods && name in lib
      modifies this`heap, this`nodes, this`db
      ensures Ok() && db == Link(old(db), lib, RunOf(old(db), lib, name))
      ensures db.order[|old(db.order)|..] == RunOf(old(db), lib, name)
      ensures modlist != NULL <==> Resolve(lib, old(db).mods.Keys + {name}, lib[name].Deps()).ok
      ensures db.order[|nodes| - 1] == name
      ensures mod != NULL && (modlist != NULL ==> At(modlist, mod, |old(nodes)|))
    {
      ghost var db0, lo := db, |nodes|;
      mod := InsertBefore(modules, name, lib[name], lo);
      assert NodeOk(heap, nodes, db, lo);
      assert db.mods.Keys == db0.mods.Keys + {name};
      ghost var added;
      modlist, added := ResolveImports(lib, mod, lo);
      LinkedNow(db0, db, lib, name);
      assert nodes[lo] == First(added, mod);
    }

    method LoadNewModule(lib: Library, env: Env, name: Name, ghost root: Name, ghost explicit: multiset<Name>) returns (mod: Ptr)
      requires Ok() && Inv(db, root, explicit) && name !in db.mods && name in lib
      modifies this`heap, this`nodes, this`db, this`calls
      ensures Ok() && Loaded(mod != NULL, db) == LoadNew(old(db), lib, env, name)
      ensures LoadCalls(old(db), lib, env, name, mod != NULL, old(calls), calls)
      ensures mod != NULL ==> mod in heap && heap[mod].name == name
    {
      ghost var db0, calls0 := db, calls;
      var modlist;
      mod, modlist := LinkNewModule(lib, name);
      if modlist == NULL {
        AbandonLoad(lib, env, name, root, explicit, db0, calls0);
        return NULL;
      }
      var ok := FinishLoad(modlist, mod, lib, env, name, root, explicit, db0, calls0);
      if !ok {
        mod := NULL;
      }
    }

    /** Takes the new modules out again when one of them is missing an import. */
    method AbandonLoad(ghost lib: Library, ghost env: Env, ghost name: Name, ghost root: Name, ghost explicit: multiset<Name>, ghost db0: Db, ghost calls0: seq<Call>)
      requires Ok() && calls == calls0 && Inv(db0, root, explicit) && name !in db0.mods && name in lib
      requires db == Link(db0, lib, RunOf(db0, lib, name)) && !Resolve(lib, db0.mods.Keys + {name}, lib[name].Deps()).ok
      modifies this`heap, this`nodes, this`db, this`calls
      ensures Ok() && Loaded(false, db) == LoadNew(db0, lib, env, name)
      ensures LoadCalls(db0, lib, env, name, false, calls0, calls)
    {
      NewRunSweeps(db0, root, explicit, lib, env, name);
      NewLoadFrom(db0, lib, env, name);
      FreeUnusedModules();
      MissingCalls(db0, root, explicit, lib, env, name, calls0, calls);
    }

    /** Completes the load of a new run. */
    method FinishLoad(modlist: Ptr, mod: Ptr, ghost lib: Library, env: Env, name: Name, ghost root: Name, ghost explicit: multiset<Name>, ghost db0: Db, ghost calls0: seq<Call>)
      returns (ok: bool)
      requires Ok() && calls == calls0 && Inv(db0, root, explicit) && name !in db0.mods && name in lib
      requires db == Link(db0, lib, RunOf(db0, lib, name)) && Resolve(lib, db0.mods.Keys + {name}, lib[name].Deps()).ok
      requires At(modlist, mod, |db0.order|) && db.order[|nodes| - 1] == name
      modifies this`heap, this`nodes, this`db, this`calls
      ensures Ok() && Loaded(ok, db) == LoadNew(db0, lib, env, name)
      ensures LoadCalls(db0, lib, env, name, ok, calls0, calls)
      ensures ok ==> mod in heap && heap[mod].name == name
    {
      NewRunSweeps(db0, root, explicit, lib, env, name);
      NewLoadFrom(db0, lib, env, name);
      ok := CompleteLoad(modlist, mod, env, name, |db0.order|);
      NewCalls(db0, root, explicit, lib, env, name, ok, calls0, calls);
    }

    /** Binds, initializes and counts the new modules; rolls back if that fails. */
    method CompleteLoad(modlist: Ptr, mod: Ptr, env: Env, name: Name, ghost lo: nat) returns (ok: bool)
      requires Ok() && At(modlist, mod, lo)
      requires db.order[|nodes| - 1] == name && name in db.mods
      requires Sweepable(db) && Sweepable(AttachFrom(db, lo, env, name).db)
      modifies this`heap, this`nodes, this`db, this`calls
      ensures Ok() && Loaded(ok, db) == LoadFrom(old(db), lo, true, env, name)
      ensures CompleteCalls(old(db), old(db.order[lo..]), env, name, Loaded(ok, db), old(calls), calls)
      ensures ok ==> mod in heap && heap[mod].name == name
    {
      ok := BindRun(modlist, mod, env, lo);
      if !ok {
        FreeUnusedModules();
        return;
      }
      ok := AttachRun(modlist, mod, env, name, lo);
      if !ok {
        FreeUnusedModules();
        return;
      }
      CountRun(modlist, mod, name, lo);
    }

    method CountRun(modlist: Ptr, mod: Ptr, name: Name, ghost lo: nat)
      requires Ok() && At(modlist, mod, lo)
      requires db.order[|nodes| - 1] == name && name in db.mods
      modifies this`heap, this`db
      ensures Ok() && Valid(Bump(old(db), name, 1)) && db == UpdateFrom(Bump(old(db), name, 1), lo)
      ensures mod in heap && heap[mod].name == name
    {
      AddRef(mod, 1, |nodes| - 1);
      UpdateRun(modlist, mod, lo);
      assert NodeOk(heap, nodes, db, |nodes| - 1);
    }

    /** Whether the handle mod belongs to a module of the list. */
    method FindHandle(mod: Ptr) returns (found: bool, ghost i: nat)
      requires Ok()
      ensures found == (mod in heap) && (found ==> i < |nodes| && nodes[i] == mod)
    {
      var m := modules;
      i := 0;
      while true
        invariant i < |nodes| && m == nodes[i] && forall k :: 0 <= k < i ==> nodes[k] != mod
        decreases |nodes| - i
      {
        assert NodeOk(heap, nodes, db, i);
        if m == mod {
          return true, i;
        }
        m := heap[m].next;
        if i + 1 < |nodes| {
          NodesDiffer(heap, modules, nodes, db, 0, i + 1);
        }
        i := i + 1;
        if m == modules {
          break;
        }
      }
      LiveIsListed(heap, modules, nodes, db, mod);
      found := false;
    }

    /** Gives up one load of mod; unknown handles are refused. */
    method UnloadModule(mod: Ptr, ghost root: Name, ghost explicit: multiset<Name>) returns (found: bool)
      requires Ok() && Inv(db, root, explicit)
      requires mod in heap ==> explicit[heap[mod].name] > 0
      modifies this`heap, this`nodes, this`db, this`calls
      ensures Ok() && found == (mod in old(heap))
      ensures !found ==> db == old(db) && calls == old(calls)
      ensures TakenDown(old(db), db, old(calls), calls)
      ensures old(Balanced(db, root, calls)) ==> Balanced(db, root, calls)
      ensures found ==> var n := old(heap)[mod].name;
                n in old(db.mods) && db == Unload(old(db), n) && Inv(db, root, explicit - multiset{n})
    {
      ghost var i;
      found, i := FindHandle(mod);
      NothingTaken(db, db, calls);
      if !found {
        return;
      }
      assert NodeOk(heap, nodes, db, i);
      ghost var n := db.order[i];
      UnloadKeepsInv(db, root, explicit, n);
      UnloadRemovable(db, root, explicit, n);
      AddRef(mod, -1, i);
      assert NodeOk(heap, nodes, db, i);
      ghost var db1 := db;
      NothingTaken(old(db), db1, calls);
      if heap[mod].refcnt <= 0 {
        RemoveModule(mod, i, Around(root, explicit - multiset{n}, {}), Counted(db, root));
        TakenJoin(old(db), db1, db, old(calls), old(calls), calls);
      }
      if old(Balanced(db, root, calls)) {
        TakenBalanced(old(db), db, root, old(calls), calls);
      }
    }
  }
}
