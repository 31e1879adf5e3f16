/**
 Import resolution of the module loader: which modules a load brings in, and in
 which order they are linked into the module list.

 A module is its canonical name together with the import descriptors of its
 image. A library maps the canonical name of every image that can be found and
 loaded to that image.
 */
module ImportResolution {

  type Name = string

  /** hasImports says whether the image has an import directory, dll whether it is
      a library with an entry point to call. */
  datatype Image = Image(dll: bool, hasImports: bool, imports: seq<Name>) {
    function Deps(): seq<Name> {
      if hasImports then imports else []
    }
  }

  type Library = map<Name, Image>

  /** Outcome of resolving: the names linked in, in list order, and whether every
      dependency could be loaded. Modules linked before a failure stay in added. */
  datatype Resolution = Resolution(ok: bool, added: seq<Name>)

  /** Resolves the descriptors deps of a module, given the names have already in
      the list. A new module is linked right before its importer and its own
      descriptors are resolved before the next one is looked at. */
  function Resolve(lib: Library, have: set<Name>, deps: seq<Name>): Resolution
    decreases lib.Keys - have, |deps|
  {
    if deps == [] then
      Resolution(true, [])
    else if deps[0] in have then
      Resolve(lib, have, deps[1..])
    else if deps[0] !in lib then
      Resolution(false, [])
    else
      var sub := Resolve(lib, have + {deps[0]}, lib[deps[0]].Deps());
      if !sub.ok then
        Resolution(false, sub.added + [deps[0]])
      else
        var rest := Resolve(lib, have + {deps[0]} + Elements(sub.added), deps[1..]);
        Resolution(rest.ok, sub.added + [deps[0]] + rest.added)
  }

  function Elements(s: seq<Name>): set<Name> {
    set i | 0 <= i < |s| :: s[i]
  }

  ghost predicate Apart(s: seq<Name>, i: int, j: int)
    requires 0 <= i < |s| && 0 <= j < |s|
  {
    s[i] != s[j]
  }

  ghost predicate Distinct(s: seq<Name>) {
    forall i, j {:trigger Apart(s, i, j)} :: 0 <= i < j < |s| ==> Apart(s, i, j)
  }

  /** Positions in a list without repetition are determined by the name there. */
  lemma {:induction false} SamePlace(s: seq<Name>, i: int, j: int)
    requires Distinct(s) && 0 <= i < |s| && 0 <= j < |s|
    ensures s[i] == s[j] <==> i == j
  {
    if i < j {
      assert Apart(s, i, j);
    } else if j < i {
      assert Apart(s, j, i);
    }
  }

  lemma {:induction false} DistinctJoin(a: seq<Name>, b: seq<Name>)
    requires Distinct(a) && Distinct(b)
    requires forall i, j :: 0 <= i < |a| && 0 <= j < |b| ==> a[i] != b[j]
    ensures Distinct(a + b)
  {
    forall i, j | 0 <= i < j < |a + b| ensures Apart(a + b, i, j) {
      if j < |a| {
        assert Apart(a, i, j);
      } else if i >= |a| {
        assert Apart(b, i - |a|, j - |a|);
      }
    }
  }

  // ---------- what is reachable through the import descriptors ----------

  /** p is a chain of imports: each module of p imports the next. */
  ghost predicate ImportPath(lib: Library, p: seq<Name>) {
    && p != []
    && forall i, j :: 0 <= i < |p| - 1 && j == i + 1 ==> Imports(lib, p[i], p[j])
  }

  predicate Imports(lib: Library, importer: Name, name: Name) {
    importer in lib && name in lib[importer].Deps()
  }

  /** A chain that starts at a descriptor of deps and avoids the names in have. */
  ghost predicate Chain(lib: Library, have: set<Name>, deps: seq<Name>, p: seq<Name>) {
    && ImportPath(lib, p)
    && p[0] in deps
    && forall i :: 0 <= i < |p| ==> p[i] !in have
  }

  /** n is transitively imported from deps through modules that are not there yet. */
  ghost predicate Reached(lib: Library, have: set<Name>, deps: seq<Name>, n: Name) {
    exists p :: Chain(lib, have, deps, p) && p[|p| - 1] == n
  }

  ghost predicate HasCycle(lib: Library) {
    exists p :: ImportPath(lib, p) && |p| >= 2 && p[0] == p[|p| - 1]
  }

  lemma {:induction false} ReachedStep(lib: Library, have: set<Name>, name: Name, n: Name, deps: seq<Name>)
    requires name in lib && name in deps && name !in have
    requires Reached(lib, have + {name}, lib[name].Deps(), n)
    ensures Reached(lib, have, deps, n)
  {
    var p :| Chain(lib, have + {name}, lib[name].Deps(), p) && p[|p| - 1] == n;
    var q := [name] + p;
    forall i, j | 0 <= i < |q| - 1 && j == i + 1 ensures Imports(lib, q[i], q[j]) {
      if i > 0 {
        assert Imports(lib, p[i - 1], p[j - 1]);
      }
    }
    assert Chain(lib, have, deps, q) && q[|q| - 1] == n;
  }

  lemma {:induction false} ReachedWeaken(lib: Library, have: set<Name>, have': set<Name>, deps: seq<Name>, n: Name)
    requires deps != [] && have <= have'
    requires Reached(lib, have', deps[1..], n)
    ensures Reached(lib, have, deps, n)
  {
    var p :| Chain(lib, have', deps[1..], p) && p[|p| - 1] == n;
    assert Chain(lib, have, deps, p);
  }

  lemma {:induction false} ReachedHead(lib: Library, have: set<Name>, deps: seq<Name>)
    requires deps != [] && deps[0] !in have
    ensures Reached(lib, have, deps, deps[0])
  {
    assert Chain(lib, have, deps, [deps[0]]);
  }

  // ---------- soundness: each new name once, only names that are needed ----------

  /** Every new name is loadable, new, reachable and linked once. */
  lemma {:induction false} ResolveSound(lib: Library, have: set<Name>, deps: seq<Name>)
    ensures var r := Resolve(lib, have, deps);
            && Distinct(r.added)
            && forall n :: n in r.added ==> n in lib && n !in have && Reached(lib, have, deps, n)
    decreases lib.Keys - have, |deps|
  {
    if deps == [] {
    } else if deps[0] in have {
      ResolveSound(lib, have, deps[1..]);
      var r := Resolve(lib, have, deps[1..]);
      forall n | n in r.added ensures Reached(lib, have, deps, n) {
        ReachedWeaken(lib, have, have, deps, n);
      }
    } else if deps[0] !in lib {
    } else {
      var name := deps[0];
      ReachedHead(lib, have, deps);
      ResolveSound(lib, have + {name}, lib[name].Deps());
      var sub := Resolve(lib, have + {name}, lib[name].Deps());
      forall n | n in sub.added ensures Reached(lib, have, deps, n) {
        ReachedStep(lib, have, name, n, deps);
      }
      assert Distinct([name]);
      DistinctJoin(sub.added, [name]);
      if sub.ok {
        var have' := have + {name} + Elements(sub.added);
        ResolveSound(lib, have', deps[1..]);
        var rest := Resolve(lib, have', deps[1..]);
        forall n | n in rest.added ensures Reached(lib, have, deps, n) {
          ReachedWeaken(lib, have, have', deps, n);
        }
        forall i, j | 0 <= i < |sub.added + [name]| && 0 <= j < |rest.added|
          ensures (sub.added + [name])[i] != rest.added[j]
        {
          if i < |sub.added| {
            assert sub.added[i] in Elements(sub.added);
          }
          assert rest.added[j] in rest.added;
        }
        DistinctJoin(sub.added + [name], rest.added);
      }
    }
  }

  // ---------- completeness: a successful resolution leaves no import open ----------

  ghost predicate Closed(lib: Library, have: set<Name>, deps: seq<Name>, added: seq<Name>) {
    && (forall d :: d in deps ==> d in have || d in added)
    && (forall n, d :: n in added && n in lib && d in lib[n].Deps() ==> d in have || d in added)
  }

  lemma {:induction false} ResolveClosed(lib: Library, have: set<Name>, deps: seq<Name>)
    requires Resolve(lib, have, deps).ok
    ensures Closed(lib, have, deps, Resolve(lib, have, deps).added)
    decreases lib.Keys - have, |deps|
  {
    if deps == [] {
    } else if deps[0] in have {
      ResolveClosed(lib, have, deps[1..]);
    } else {
      var name := deps[0];
      ResolveClosed(lib, have + {name}, lib[name].Deps());
      var sub := Resolve(lib, have + {name}, lib[name].Deps());
      ResolveClosed(lib, have + {name} + Elements(sub.added), deps[1..]);
    }
  }

  /** A failed resolution met a name that is needed and cannot be loaded. */
  lemma {:induction false} ResolveMissing(lib: Library, have: set<Name>, deps: seq<Name>) returns (missing: Name)
    requires !Resolve(lib, have, deps).ok
    ensures missing !in lib && Reached(lib, have, deps, missing)
    decreases lib.Keys - have, |deps|
  {
    if deps[0] in have {
      missing := ResolveMissing(lib, have, deps[1..]);
      ReachedWeaken(lib, have, have, deps, missing);
    } else if deps[0] !in lib {
      missing := deps[0];
      ReachedHead(lib, have, deps);
    } else {
      var name := deps[0];
      var sub := Resolve(lib, have + {name}, lib[name].Deps());
      if !sub.ok {
        missing := ResolveMissing(lib, have + {name}, lib[name].Deps());
        ReachedStep(lib, have, name, missing, deps);
      } else {
        var have' := have + {name} + Elements(sub.added);
        missing := ResolveMissing(lib, have', deps[1..]);
        ReachedWeaken(lib, have, have', deps, missing);
      }
    }
  }

  lemma {:induction false} ChainStaysInside(lib: Library, have: set<Name>, deps: seq<Name>, added: seq<Name>, p: seq<Name>)
    requires Closed(lib, have, deps, added) && Chain(lib, have, deps, p)
    ensures p[|p| - 1] in added
    decreases |p|
  {
    if |p| > 1 {
      var q := p[..|p| - 1];
      assert Chain(lib, have, deps, q);
      ChainStaysInside(lib, have, deps, added, q);
      assert Imports(lib, p[|p| - 2], p[|p| - 1]);
    }
  }

  /** Resolution succeeds exactly when everything transitively imported can be
      loaded, and then it links exactly the modules that were missing. */
  lemma {:induction false} ResolveExact(lib: Library, have: set<Name>, deps: seq<Name>)
    ensures var r := Resolve(lib, have, deps);
            && (r.ok <==> forall n :: Reached(lib, have, deps, n) ==> n in lib)
            && (r.ok ==> forall n :: n in r.added <==> Reached(lib, have, deps, n))
  {
    var r := Resolve(lib, have, deps);
    ResolveSound(lib, have, deps);
    if r.ok {
      ResolveClosed(lib, have, deps);
      forall n | Reached(lib, have, deps, n) ensures n in r.added {
        var p :| Chain(lib, have, deps, p) && p[|p| - 1] == n;
        ChainStaysInside(lib, have, deps, r.added, p);
      }
    } else {
      var missing := ResolveMissing(lib, have, deps);
    }
  }

  /** Everything linked in is named by a descriptor it was linked in for. */
  lemma {:induction false} ResolveImported(lib: Library, have: set<Name>, deps: seq<Name>, n: Name)
    requires Resolve(lib, have, deps).ok && n in Resolve(lib, have, deps).added
    ensures n in deps || exists m :: m in Resolve(lib, have, deps).added && Imports(lib, m, n)
  {
    ResolveExact(lib, have, deps);
    var p :| Chain(lib, have, deps, p) && p[|p| - 1] == n;
    if |p| > 1 {
      var m := p[|p| - 2];
      assert Imports(lib, m, n);
      assert Chain(lib, have, deps, p[..|p| - 1]);
      assert Reached(lib, have, deps, m);
    }
  }

  // ---------- order: dependencies come before their importers ----------

  ghost predicate DependenciesFirst(lib: Library, have: set<Name>, added: seq<Name>) {
    forall i, d :: 0 <= i < |added| && added[i] in lib && d in lib[added[i]].Deps()
                   ==> d in have || d in added[..i]
  }

  lemma {:induction false} CycleThrough(lib: Library, have: set<Name>, name: Name, n: Name)
    requires name in lib && n in lib
    requires n == name || Reached(lib, have, lib[name].Deps(), n)
    requires name in lib[n].Deps()
    ensures HasCycle(lib)
  {
    if n == name {
      assert ImportPath(lib, [name, name]);
    } else {
      var p :| Chain(lib, have, lib[name].Deps(), p) && p[|p| - 1] == n;
      var q := [name] + p + [name];
      forall i, j | 0 <= i < |q| - 1 && j == i + 1 ensures Imports(lib, q[i], q[j]) {
        if 0 < i < |p| {
          assert Imports(lib, p[i - 1], p[j - 1]);
        }
      }
      assert ImportPath(lib, q);
    }
  }

  lemma {:induction false} JoinInOrder(lib: Library, have: set<Name>, name: Name, sub: seq<Name>, rest: seq<Name>)
    requires name in lib
    requires forall d :: d in lib[name].Deps() ==> d in have || d in sub
    requires DependenciesFirst(lib, have, sub)
    requires DependenciesFirst(lib, have + {name} + Elements(sub), rest)
    ensures DependenciesFirst(lib, have, sub + [name] + rest)
  {
    var all := sub + [name] + rest;
    forall i, d | 0 <= i < |all| && all[i] in lib && d in lib[all[i]].Deps()
      ensures d in have || d in all[..i]
    {
      if i < |sub| {
        assert all[..i] == sub[..i];
      } else if i == |sub| {
        assert all[..i] == sub;
      } else {
        var k := i - |sub| - 1;
        assert all[..i] == sub + [name] + rest[..k];
        assert d in have + {name} + Elements(sub) || d in rest[..k];
      }
    }
  }

  lemma {:induction false} NoWayBack(lib: Library, have: set<Name>, name: Name, n: Name)
    requires !HasCycle(lib) && name in lib && n in lib
    requires n == name || Reached(lib, have, lib[name].Deps(), n)
    ensures name !in lib[n].Deps()
  {
    if name in lib[n].Deps() {
      CycleThrough(lib, have, name, n);
      assert false;
    }
  }

  lemma {:induction false} DropImporter(lib: Library, have: set<Name>, name: Name, added: seq<Name>)
    requires forall i :: 0 <= i < |added| && added[i] in lib ==> name !in lib[added[i]].Deps()
    requires DependenciesFirst(lib, have + {name}, added)
    ensures DependenciesFirst(lib, have, added)
  {
    forall i, d | 0 <= i < |added| && added[i] in lib && d in lib[added[i]].Deps()
      ensures d in have || d in added[..i]
    {
      assert d in have + {name} || d in added[..i];
    }
  }

  /** When imports are acyclic, every module is linked after all it imports. */
  lemma {:induction false} ResolveInDependencyOrder(lib: Library, have: set<Name>, deps: seq<Name>)
    requires !HasCycle(lib) && Resolve(lib, have, deps).ok
    ensures DependenciesFirst(lib, have, Resolve(lib, have, deps).added)
    decreases lib.Keys - have, |deps|
  {
    if deps == [] {
    } else if deps[0] in have {
      ResolveInDependencyOrder(lib, have, deps[1..]);
    } else {
      var name := deps[0];
      var sub := Resolve(lib, have + {name}, lib[name].Deps());
      ResolveInDependencyOrder(lib, have + {name}, lib[name].Deps());
      ResolveSound(lib, have + {name}, lib[name].Deps());
      ResolveClosed(lib, have + {name}, lib[name].Deps());
      forall i | 0 <= i < |sub.added| && sub.added[i] in lib ensures name !in lib[sub.added[i]].Deps() {
        NoWayBack(lib, have + {name}, name, sub.added[i]);
      }
      DropImporter(lib, have, name, sub.added);
      NoWayBack(lib, have, name, name);
      var have' := have + {name} + Elements(sub.added);
      ResolveInDependencyOrder(lib, have', deps[1..]);
      JoinInOrder(lib, have, name, sub.added, Resolve(lib, have', deps[1..]).added);
    }
  }
}
