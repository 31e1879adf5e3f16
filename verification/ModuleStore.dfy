/**
 The store of module records: a circular doubly linked list of live records, and
 how it represents a module database. A freed record leaves the store.
 */
module ModuleStore {
  import opened ImportResolution
  import opened ModuleDatabase

  type Ptr = nat

  const NULL: Ptr := 0

  datatype Node = Node(name: Name, image: Image, next: Ptr, prev: Ptr, refcnt: int, refed: bool, inited: bool) {
    function Value(): Mod {
      Mod(image, refcnt, refed, inited)
    }
  }

  type Store = map<Ptr, Node>

  function Next(i: nat, n: nat): nat
    requires i < n
  {
    if i + 1 == n then 0 else i + 1
  }

  /** The record at position i is live, linked to its successor in both directions
      and holds the module at position i of db. */
  ghost predicate NodeOk(heap: Store, nodes: seq<Ptr>, db: Db, i: nat)
    requires i < |nodes| == |db.order|
  {
    var p, q := nodes[i], nodes[Next(i, |nodes|)];
    && p in heap && q in heap
    && heap[p].next == q && heap[q].prev == p
    && heap[p].name == db.order[i]
    && db.order[i] in db.mods && db.mods[db.order[i]] == heap[p].Value()
  }

  /** The store consists of exactly the records nodes, which form a circular doubly
      linked list from head and hold the modules of db in the same order. */
  ghost predicate Repr(heap: Store, head: Ptr, nodes: seq<Ptr>, db: Db) {
    && nodes != [] && nodes[0] == head && |nodes| == |db.order|
    && NULL !in heap && |heap| == |nodes| && Valid(db)
    && forall i: nat {:trigger NodeOk(heap, nodes, db, i)} :: i < |nodes| ==> NodeOk(heap, nodes, db, i)
  }

  lemma {:induction false} NodesDiffer(heap: Store, head: Ptr, nodes: seq<Ptr>, db: Db, i: nat, j: nat)
    requires Repr(heap, head, nodes, db) && i < |nodes| && j < |nodes| && i != j
    ensures nodes[i] != nodes[j] && db.order[i] != db.order[j]
    ensures nodes[i] in heap && nodes[j] in heap
  {
    assert NodeOk(heap, nodes, db, i) && NodeOk(heap, nodes, db, j);
    SamePlace(db.order, i, j);
  }

  ghost function InsertAt<T>(s: seq<T>, i: nat, x: T): (r: seq<T>)
    requires i <= |s|
    ensures |r| == |s| + 1 && r[i] == x
    ensures forall k :: 0 <= k < |r| && k != i ==> r[k] == s[if k < i then k else k - 1]
  {
    s[..i] + [x] + s[i..]
  }

  /** db with a new module at position i of the list. */
  ghost function Inserted(db: Db, i: nat, n: Name, m: Mod): Db
    requires i <= |db.order|
  {
    Db(InsertAt(db.order, i, n), db.mods[n := m])
  }

  lemma {:induction false} InsertedValid(db: Db, i: nat, n: Name, m: Mod)
    requires Valid(db) && i <= |db.order| && n !in db.mods
    ensures Valid(Inserted(db, i, n, m))
  {
    var t := InsertAt(db.order, i, n);
    forall k | 0 <= k < |db.order| ensures db.order[k] != n {
      assert db.order[k] in Elements(db.order);
    }
    forall k, l | 0 <= k < l < |t| ensures Apart(t, k, l) {
      if k != i && l != i {
        assert Apart(db.order, if k < i then k else k - 1, if l < i then l else l - 1);
      }
    }
    forall x | x in Elements(db.order) ensures x in Elements(t) {
      var k :| 0 <= k < |db.order| && db.order[k] == x;
      assert t[if k < i then k else k + 1] == x;
    }
    assert t[i] == n;
  }

  // ---------- linking in ----------

  /** The link updates that put record n right before record m. */
  function LinkBefore(heap: Store, m: Ptr, n: Ptr): (r: Store)
    requires m in heap && n in heap && heap[m].prev in heap && n != m && n != heap[m].prev
    ensures r.Keys == heap.Keys
  {
    var h1 := heap[n := heap[n].(next := m, prev := heap[m].prev)];
    var h2 := h1[h1[m].prev := h1[h1[m].prev].(next := n)];
    h2[m := h2[m].(prev := n)]
  }

  /** The record in front of which a new record at position i is linked: the last
      position is in front of the head. */
  function Before(nodes: seq<Ptr>, i: nat): Ptr
    requires 0 < i <= |nodes|
  {
    nodes[if i == |nodes| then 0 else i]
  }

  /** Allocating a record and linking it in at position i. */
  lemma {:induction false} InsertRepr(heap: Store, head: Ptr, nodes: seq<Ptr>, db: Db, i: nat, n: Ptr, node: Node)
    requires Repr(heap, head, nodes, db) && 0 < i <= |nodes|
    requires n !in heap && n != NULL && node.name !in db.mods
    ensures Before(nodes, i) in heap && heap[Before(nodes, i)].prev in heap
    ensures Repr(LinkBefore(heap[n := node], Before(nodes, i), n), head, InsertAt(nodes, i, n), Inserted(db, i, node.name, node.Value()))
  {
    assert NodeOk(heap, nodes, db, i - 1);
    var h := LinkBefore(heap[n := node], Before(nodes, i), n);
    var t, db' := InsertAt(nodes, i, n), Inserted(db, i, node.name, node.Value());
    InsertedValid(db, i, node.name, node.Value());
    assert |h| == |h.Keys| && |heap| == |heap.Keys| && h.Keys == heap.Keys + {n};
    forall k: nat | k < |t| ensures NodeOk(h, t, db', k) {
      InsertNodeOk(heap, head, nodes, db, i, n, node, k);
    }
  }

  lemma {:induction false} LinkFields(heap: Store, m: Ptr, n: Ptr, p: Ptr)
    requires m in heap && n in heap && heap[m].prev in heap && n != m && n != heap[m].prev && p in heap
    ensures var r := LinkBefore(heap, m, n)[p];
            && r.next == (if p == n then m else if p == heap[m].prev then n else heap[p].next)
            && r.prev == (if p == n then heap[m].prev else if p == m then n else heap[p].prev)
            && r.name == heap[p].name && r.Value() == heap[p].Value()
  {
  }

  lemma {:induction false} InsertNodeOk(heap: Store, head: Ptr, nodes: seq<Ptr>, db: Db, i: nat, n: Ptr, node: Node, k: nat)
    requires Repr(heap, head, nodes, db) && 0 < i <= |nodes| && k < |nodes| + 1
    requires n !in heap && n != NULL && node.name !in db.mods
    requires Before(nodes, i) in heap && heap[Before(nodes, i)].prev in heap
    ensures NodeOk(LinkBefore(heap[n := node], Before(nodes, i), n), InsertAt(nodes, i, n), Inserted(db, i, node.name, node.Value()), k)
  {
    var g, t, m := heap[n := node], InsertAt(nodes, i, n), Before(nodes, i);
    assert NodeOk(heap, nodes, db, i - 1);
    assert heap[m].prev == nodes[i - 1];
    if k == i {
      assert t[Next(k, |t|)] == m;
      LinkFields(g, m, n, n);
      LinkFields(g, m, n, m);
    } else if k == i - 1 {
      LinkFields(g, m, n, n);
      LinkFields(g, m, n, nodes[k]);
    } else {
      var k' := if k < i then k else k - 1;
      var j' := Next(k', |nodes|);
      assert NodeOk(heap, nodes, db, k') && NodeOk(heap, nodes, db, j');
      NodesDiffer(heap, head, nodes, db, k', i - 1);
      NodesDiffer(heap, head, nodes, db, j', if i == |nodes| then 0 else i);
      assert t[k] == nodes[k'] && t[Next(k, |t|)] == nodes[j'];
      LinkFields(g, m, n, nodes[k']);
      LinkFields(g, m, n, nodes[j']);
    }
  }

  // ---------- changing counts and flags ----------

  /** Changing the count and the flags of one record in place. */
  lemma {:induction false} SetRepr(heap: Store, head: Ptr, nodes: seq<Ptr>, db: Db, i: nat, node: Node)
    requires Repr(heap, head, nodes, db) && i < |nodes| && nodes[i] in heap
    requires node.(refcnt := heap[nodes[i]].refcnt, refed := heap[nodes[i]].refed, inited := heap[nodes[i]].inited) == heap[nodes[i]]
    ensures Repr(heap[nodes[i] := node], head, nodes, db.(mods := db.mods[db.order[i] := node.Value()]))
  {
    var h, db' := heap[nodes[i] := node], db.(mods := db.mods[db.order[i] := node.Value()]);
    assert NodeOk(heap, nodes, db, i);
    assert |h| == |h.Keys| && |heap| == |heap.Keys| && h.Keys == heap.Keys;
    assert db'.mods.Keys == db.mods.Keys;
    forall k: nat | k < |nodes| ensures NodeOk(h, nodes, db', k) {
      assert NodeOk(heap, nodes, db, k);
      if k != i {
        NodesDiffer(heap, head, nodes, db, k, i);
      }
    }
  }

  /** Adds delta to the reference count field of record m. */
  function AddCount(heap: Store, m: Ptr, delta: int): Store
    requires m in heap
  {
    heap[m := heap[m].(refcnt := heap[m].refcnt + delta)]
  }

  lemma {:induction false} AddCountRepr(heap: Store, head: Ptr, nodes: seq<Ptr>, db: Db, i: nat, delta: int)
    requires Repr(heap, head, nodes, db) && i < |nodes|
    ensures nodes[i] in heap && db.order[i] in db.mods
    ensures Repr(AddCount(heap, nodes[i], delta), head, nodes, Bump(db, db.order[i], delta))
  {
    assert NodeOk(heap, nodes, db, i);
    var node := heap[nodes[i]];
    SetRepr(heap, head, nodes, db, i, node.(refcnt := node.refcnt + delta));
    BumpIsSet(db, db.order[i], node, delta);
  }

  lemma {:induction false} BumpIsSet(db: Db, n: Name, node: Node, delta: int)
    requires n in db.mods && db.mods[n] == node.Value()
    ensures Bump(db, n, delta) == db.(mods := db.mods[n := node.(refcnt := node.refcnt + delta).Value()])
  {
  }

  function SetRefed(heap: Store, m: Ptr): Store
    requires m in heap
  {
    heap[m := heap[m].(refed := true)]
  }

  function SetInited(heap: Store, m: Ptr): Store
    requires m in heap
  {
    heap[m := heap[m].(inited := true)]
  }

  function WithRefed(db: Db, n: Name): Db
    requires n in db.mods
  {
    db.(mods := db.mods[n := db.mods[n].(refed := true)])
  }

  function WithInited(db: Db, n: Name): Db
    requires n in db.mods
  {
    db.(mods := db.mods[n := db.mods[n].(inited := true)])
  }

  lemma {:induction false} SetRefedRepr(heap: Store, head: Ptr, nodes: seq<Ptr>, db: Db, i: nat)
    requires Repr(heap, head, nodes, db) && i < |nodes|
    ensures nodes[i] in heap && db.order[i] in db.mods
    ensures Repr(SetRefed(heap, nodes[i]), head, nodes, WithRefed(db, db.order[i]))
  {
    assert NodeOk(heap, nodes, db, i);
    SetRepr(heap, head, nodes, db, i, heap[nodes[i]].(refed := true));
  }

  lemma {:induction false} SetInitedRepr(heap: Store, head: Ptr, nodes: seq<Ptr>, db: Db, i: nat)
    requires Repr(heap, head, nodes, db) && i < |nodes|
    ensures nodes[i] in heap && db.order[i] in db.mods
    ensures Repr(SetInited(heap, nodes[i]), head, nodes, WithInited(db, db.order[i]))
  {
    assert NodeOk(heap, nodes, db, i);
    SetRepr(heap, head, nodes, db, i, heap[nodes[i]].(inited := true));
  }

  // ---------- unlinking ----------

  ghost function RemoveAt<T>(s: seq<T>, i: nat): (r: seq<T>)
    requires i < |s|
    ensures |r| == |s| - 1 && forall k :: 0 <= k < |r| ==> r[k] == s[if k < i then k else k + 1]
  {
    s[..i] + s[i + 1..]
  }

  /** The two link updates that take record m out of the ring. */
  function Unlink(heap: Store, m: Ptr): (r: Store)
    requires m in heap && heap[m].next in heap && heap[m].prev in heap
    ensures r.Keys == heap.Keys
  {
    var h := heap[heap[m].next := heap[heap[m].next].(prev := heap[m].prev)];
    h[h[m].prev := h[h[m].prev].(next := h[m].next)]
  }

  /** Unlinking and freeing the record at position i. */
  lemma {:induction false} RemoveRepr(heap: Store, head: Ptr, nodes: seq<Ptr>, db: Db, i: nat)
    requires Repr(heap, head, nodes, db) && 0 < i < |nodes|
    ensures nodes[i] in heap && heap[nodes[i]].next in heap && heap[nodes[i]].prev in heap
    ensures Repr(Unlink(heap, nodes[i]) - {nodes[i]}, head, RemoveAt(nodes, i), Delete(db, db.order[i]))
  {
    assert NodeOk(heap, nodes, db, i - 1) && NodeOk(heap, nodes, db, i);
    var h := Unlink(heap, nodes[i]) - {nodes[i]};
    var t, db' := RemoveAt(nodes, i), Delete(db, db.order[i]);
    WithoutAt(db.order, i);
    assert |h| == |h.Keys| && |heap| == |heap.Keys| && h.Keys == heap.Keys - {nodes[i]};
    forall k: nat | k < |t| ensures NodeOk(h, t, db', k) {
      RemoveNodeOk(heap, head, nodes, db, i, k);
    }
  }

  lemma {:induction false} UnlinkFields(heap: Store, m: Ptr, p: Ptr)
    requires m in heap && heap[m].next in heap && heap[m].prev in heap && p in heap
    requires heap[m].next != m
    ensures var r := Unlink(heap, m)[p];
            && r.next == (if p == heap[m].prev then heap[m].next else heap[p].next)
            && r.prev == (if p == heap[m].next then heap[m].prev else heap[p].prev)
            && r.name == heap[p].name && r.Value() == heap[p].Value()
  {
  }

  lemma {:induction false} RemoveNodeOk(heap: Store, head: Ptr, nodes: seq<Ptr>, db: Db, i: nat, k: nat)
    requires Repr(heap, head, nodes, db) && 0 < i < |nodes| && k < |nodes| - 1
    requires nodes[i] in heap && heap[nodes[i]].next in heap && heap[nodes[i]].prev in heap
    ensures |Delete(db, db.order[i]).order| == |nodes| - 1
    ensures NodeOk(Unlink(heap, nodes[i]) - {nodes[i]}, RemoveAt(nodes, i), Delete(db, db.order[i]), k)
  {
    WithoutAt(db.order, i);
    var s := Next(i, |nodes|);
    var k' := if k < i then k else k + 1;
    var j' := if k == i - 1 then s else Next(k', |nodes|);
    RemoveLinks(heap, head, nodes, db, i, k');
    NodesDiffer(heap, head, nodes, db, k', i);
    NodesDiffer(heap, head, nodes, db, j', i);
    assert RemoveAt(nodes, i)[k] == nodes[k'] && RemoveAt(nodes, i)[Next(k, |nodes| - 1)] == nodes[j'];
    assert Delete(db, db.order[i]).order[k] == db.order[k'];
  }

  /** The successor of the record at position k once the one at i is unlinked. */
  lemma {:induction false} RemoveLinks(heap: Store, head: Ptr, nodes: seq<Ptr>, db: Db, i: nat, k: nat)
    requires Repr(heap, head, nodes, db) && 0 < i < |nodes| && k < |nodes| && k != i
    requires nodes[i] in heap && heap[nodes[i]].next in heap && heap[nodes[i]].prev in heap
    ensures var h, q := Unlink(heap, nodes[i]), nodes[if k == i - 1 then Next(i, |nodes|) else Next(k, |nodes|)];
            && nodes[k] in heap && q in heap
            && h[nodes[k]].next == q && h[q].prev == nodes[k]
            && h[nodes[k]].name == db.order[k]
            && db.order[k] in db.mods && db.mods[db.order[k]] == h[nodes[k]].Value()
  {
    var s := Next(i, |nodes|);
    var j := if k == i - 1 then s else Next(k, |nodes|);
    assert NodeOk(heap, nodes, db, i - 1) && NodeOk(heap, nodes, db, i) && NodeOk(heap, nodes, db, k) && NodeOk(heap, nodes, db, j);
    NodesDiffer(heap, head, nodes, db, s, i);
    if k != i - 1 {
      NodesDiffer(heap, head, nodes, db, k, i - 1);
      NodesDiffer(heap, head, nodes, db, j, s);
    }
    UnlinkFields(heap, nodes[i], nodes[k]);
    UnlinkFields(heap, nodes[i], nodes[j]);
  }

  // ---------- a run of new modules in front of its importer ----------

  ghost function Splice<T>(s: seq<T>, i: nat, x: seq<T>): seq<T>
    requires i <= |s|
  {
    s[..i] + x + s[i..]
  }

  lemma {:induction false} SpliceInsert<T>(s: seq<T>, i: nat, e: T, sub: seq<T>)
    requires i <= |s|
    ensures Splice(InsertAt(s, i, e), i, sub) == Splice(s, i, sub + [e])
  {
  }

  lemma {:induction false} SpliceJoin<T>(s: seq<T>, i: nat, x: seq<T>, y: seq<T>)
    requires i <= |s|
    ensures Splice(Splice(s, i, x), i + |x|, y) == Splice(s, i, x + y)
  {
  }

  function NewMods(lib: Library, names: seq<Name>): map<Name, Mod> {
    map n | n in names && n in lib :: Mod(lib[n], 0, false, false)
  }

  /** db with new, uncounted modules linked in from position i on. */
  ghost function Spliced(db: Db, i: nat, lib: Library, names: seq<Name>): Db
    requires i <= |db.order|
  {
    Db(Splice(db.order, i, names), db.mods + NewMods(lib, names))
  }

  lemma {:induction false} SplicedNothing(db: Db, nodes: seq<Ptr>, i: nat, lib: Library)
    requires i <= |db.order| && i <= |nodes|
    ensures Spliced(db, i, lib, []) == db && Splice(nodes, i, []) == nodes
  {
  }

  lemma {:induction false} SplicedInsert(db: Db, i: nat, lib: Library, n: Name, sub: seq<Name>)
    requires i <= |db.order| && n in lib
    ensures Spliced(Inserted(db, i, n, Mod(lib[n], 0, false, false)), i, lib, sub) == Spliced(db, i, lib, sub + [n])
  {
    SpliceInsert(db.order, i, n, sub);
    assert db.mods[n := Mod(lib[n], 0, false, false)] + NewMods(lib, sub) == db.mods + NewMods(lib, sub + [n]);
  }

  lemma {:induction false} SplicedJoin(db: Db, i: nat, lib: Library, x: seq<Name>, y: seq<Name>)
    requires i <= |db.order|
    ensures Spliced(Spliced(db, i, lib, x), i + |x|, lib, y) == Spliced(db, i, lib, x + y)
  {
    SpliceJoin(db.order, i, x, y);
    NewModsJoin(db.mods, lib, x, y);
  }

  lemma {:induction false} NewModsJoin(mods: map<Name, Mod>, lib: Library, x: seq<Name>, y: seq<Name>)
    ensures mods + NewMods(lib, x) + NewMods(lib, y) == mods + NewMods(lib, x + y)
  {
  }

  /** A new module at the end with its dependencies in front of it. */
  lemma {:induction false} SplicedIsLink(db: Db, lib: Library, name: Name, sub: seq<Name>)
    requires name in lib && forall n :: n in sub ==> n in lib
    ensures Spliced(Inserted(db, |db.order|, name, Mod(lib[name], 0, false, false)), |db.order|, lib, sub)
            == Link(db, lib, sub + [name])
  {
    SplicedInsert(db, |db.order|, lib, name, sub);
    assert Splice(db.order, |db.order|, sub + [name]) == db.order + (sub + [name]);
    assert NewMods(lib, sub + [name]) == map n | n in sub + [name] :: Mod(lib[n], 0, false, false);
  }

  lemma {:induction false} SplicedKeys(db: Db, i: nat, lib: Library, names: seq<Name>)
    requires i <= |db.order| && forall n :: n in names ==> n in lib
    ensures Spliced(db, i, lib, names).mods.Keys == db.mods.Keys + Elements(names)
  {
  }

  /** After the first k descriptors, names are linked in and the rest is to do. */
  ghost predicate Partial(lib: Library, have: set<Name>, deps: seq<Name>, k: nat, names: seq<Name>) {
    && k <= |deps|
    && (forall n :: n in names ==> n in lib)
    && var rest := Resolve(lib, have + Elements(names), deps[k..]);
       Resolve(lib, have, deps) == Resolution(rest.ok, names + rest.added)
  }

  lemma {:induction false} PartialStart(lib: Library, have: set<Name>, deps: seq<Name>)
    ensures Partial(lib, have, deps, 0, [])
  {
    assert deps[0..] == deps;
    assert have + Elements([]) == have;
  }

  lemma {:induction false} PartialDone(lib: Library, have: set<Name>, deps: seq<Name>, names: seq<Name>)
    requires Partial(lib, have, deps, |deps|, names)
    ensures Resolve(lib, have, deps) == Resolution(true, names)
  {
    assert deps[|deps|..] == [];
  }

  /** The first record of a run that ends in front of mod. */
  function First(run: seq<Ptr>, mod: Ptr): Ptr {
    if run == [] then mod else run[0]
  }

  lemma {:induction false} FirstJoin(run: seq<Ptr>, more: seq<Ptr>, mod: Ptr)
    ensures First(run + more, mod) == if run == [] then First(more, mod) else First(run, mod)
  {
  }

  lemma {:induction false} FirstOfRun(heap: Store, head: Ptr, nodes: seq<Ptr>, db: Db, i: nat, nodes0: seq<Ptr>, run: seq<Ptr>)
    requires Repr(heap, head, nodes, db) && i < |nodes0| && nodes == Splice(nodes0, i, run)
    ensures First(run, nodes0[i]) != NULL
    ensures First(run, nodes0[i]) == nodes0[i] <==> run == []
  {
    assert nodes[i] == First(run, nodes0[i]);
    assert NodeOk(heap, nodes, db, i);
    if run != [] {
      assert nodes[i + |run|] == nodes0[i];
      NodesDiffer(heap, head, nodes, db, i, i + |run|);
    }
  }

  lemma {:induction false} ResolveOne(lib: Library, have: set<Name>, n: Name)
    ensures Resolve(lib, have, [n]) ==
            if n in have then Resolution(true, [])
            else if n !in lib then Resolution(false, [])
            else
              var sub := Resolve(lib, have + {n}, lib[n].Deps());
              Resolution(sub.ok, sub.added + [n])
  {
    assert [n][1..] == [];
    if n !in have && n in lib {
      var sub := Resolve(lib, have + {n}, lib[n].Deps());
      assert Resolve(lib, have + {n} + Elements(sub.added), []) == Resolution(true, []);
      assert sub.added + [n] + [] == sub.added + [n];
    }
  }

  /** Resolving one descriptor and then the rest. */
  lemma {:induction false} ResolveCons(lib: Library, have: set<Name>, deps: seq<Name>)
    requires deps != []
    ensures var one := Resolve(lib, have, [deps[0]]);
            var rest := Resolve(lib, have + Elements(one.added), deps[1..]);
            Resolve(lib, have, deps) == if one.ok then Resolution(rest.ok, one.added + rest.added) else one
  {
    var n := deps[0];
    ResolveOne(lib, have, n);
    assert have + Elements([]) == have;
    if n !in have && n in lib {
      var sub := Resolve(lib, have + {n}, lib[n].Deps());
      ElementsJoin([], sub.added, n);
      assert [] + sub.added + [n] == sub.added + [n];
      assert have + Elements(sub.added + [n]) == have + {n} + Elements(sub.added);
    }
  }

  lemma {:induction false} PartialStep(lib: Library, have: set<Name>, deps: seq<Name>, k: nat, names: seq<Name>)
    requires Partial(lib, have, deps, k, names) && k < |deps|
    ensures var one := Resolve(lib, have + Elements(names), [deps[k]]);
            if one.ok then Partial(lib, have, deps, k + 1, names + one.added)
            else Resolve(lib, have, deps) == Resolution(false, names + one.added)
  {
    var now := have + Elements(names);
    var one := Resolve(lib, now, [deps[k]]);
    assert deps[k..][0] == deps[k] && deps[k..][1..] == deps[k + 1..];
    ResolveCons(lib, now, deps[k..]);
    ResolveSound(lib, now, [deps[k]]);
    ElementsAppend(names, one.added);
    assert now + Elements(one.added) == have + Elements(names + one.added);
    var rest := Resolve(lib, now + Elements(one.added), deps[k + 1..]);
    assert names + (one.added + rest.added) == (names + one.added) + rest.added;
  }

  /** The state of the loop over the descriptors of the record at position i of the
      list nodes0: the run of new records, their names and the first of them. */
  datatype Progress = Progress(i: nat, nodes0: seq<Ptr>, db0: Db, added: seq<Ptr>, names: seq<Name>) {
    ghost predicate Reached(lib: Library, deps: seq<Name>, k: nat, nodes: seq<Ptr>, db: Db) {
      && i < |nodes0| == |db0.order| && |names| == |added|
      && nodes == Splice(nodes0, i, added) && db == Spliced(db0, i, lib, names)
      && Partial(lib, db0.mods.Keys, deps, k, names)
    }
  }

  lemma {:induction false} ProgressStep(g: Progress, lib: Library, deps: seq<Name>, k: nat, nodes: seq<Ptr>, db: Db,
                                        run: seq<Ptr>, nodes': seq<Ptr>, db': Db)
    requires g.Reached(lib, deps, k, nodes, db) && k < |deps|
    requires var r := Resolve(lib, db.mods.Keys, [deps[k]]);
             && |run| == |r.added| && g.i + |g.added| <= |nodes| == |db.order|
             && nodes' == Splice(nodes, g.i + |g.added|, run)
             && db' == Spliced(db, g.i + |g.added|, lib, r.added)
    ensures var r := Resolve(lib, db.mods.Keys, [deps[k]]);
            var g' := g.(added := g.added + run, names := g.names + r.added);
            && nodes' == Splice(g.nodes0, g.i, g'.added) && db' == Spliced(g.db0, g.i, lib, g'.names)
            && |g'.added| == |g'.names|
            && (r.ok ==> g'.Reached(lib, deps, k + 1, nodes', db'))
            && (!r.ok ==> Resolve(lib, g.db0.mods.Keys, deps) == Resolution(false, g'.names))
  {
    var r := Resolve(lib, db.mods.Keys, [deps[k]]);
    SplicedKeys(g.db0, g.i, lib, g.names);
    PartialStep(lib, g.db0.mods.Keys, deps, k, g.names);
    SpliceJoin(g.nodes0, g.i, g.added, run);
    SplicedJoin(g.db0, g.i, lib, g.names, r.added);
  }

  lemma {:induction false} ElementsAppend(a: seq<Name>, b: seq<Name>)
    ensures Elements(a + b) == Elements(a) + Elements(b)
  {
    forall x | x in Elements(a) ensures x in Elements(a + b) {
      var k :| 0 <= k < |a| && a[k] == x;
      assert (a + b)[k] == x;
    }
    forall x | x in Elements(b) ensures x in Elements(a + b) {
      var k :| 0 <= k < |b| && b[k] == x;
      assert (a + b)[|a| + k] == x;
    }
  }

  lemma {:induction false} ElementsJoin(a: seq<Name>, b: seq<Name>, n: Name)
    ensures Elements(a + b + [n]) == Elements(a) + Elements(b) + {n}
  {
    ElementsAppend(a, b);
    ElementsAppend(a + b, [n]);
    assert [n][0] in Elements([n]);
  }

  // ---------- records that stay where they are ----------

  /** The module at position i of db and that at position j of db', if the same, are
      held by the same record. */
  ghost predicate SameRecord(nodes: seq<Ptr>, db: Db, nodes': seq<Ptr>, db': Db, i: nat, j: nat)
    requires i < |nodes| == |db.order| && j < |nodes'| == |db'.order|
  {
    db.order[i] == db'.order[j] ==> nodes[i] == nodes'[j]
  }

  /** Every module left is still held by the same record. */
  ghost predicate Survive(nodes: seq<Ptr>, db: Db, nodes': seq<Ptr>, db': Db) {
    && |nodes| == |db.order| && |nodes'| == |db'.order| && Valid(db) && Valid(db')
    && db'.mods.Keys <= db.mods.Keys
    && forall i: nat, j: nat {:trigger SameRecord(nodes, db, nodes', db', i, j)} ::
         i < |nodes| && j < |nodes'| ==> SameRecord(nodes, db, nodes', db', i, j)
  }

  lemma {:induction false} SurviveRefl(nodes: seq<Ptr>, db: Db, db': Db)
    requires |nodes| == |db.order| && Valid(db) && Valid(db') && db'.order == db.order
    ensures Survive(nodes, db, nodes, db')
  {
    forall i: nat, j: nat | i < |nodes| && j < |nodes| ensures SameRecord(nodes, db, nodes, db', i, j) {
      SamePlace(db.order, i, j);
    }
  }

  lemma {:induction false} SurviveTrans(n1: seq<Ptr>, d1: Db, n2: seq<Ptr>, d2: Db, n3: seq<Ptr>, d3: Db)
    requires Survive(n1, d1, n2, d2) && Survive(n2, d2, n3, d3)
    ensures Survive(n1, d1, n3, d3)
  {
    forall i: nat, k: nat | i < |n1| && k < |n3| ensures SameRecord(n1, d1, n3, d3, i, k) {
      if d1.order[i] == d3.order[k] {
        assert d3.order[k] in Elements(d3.order);
        var j :| 0 <= j < |d2.order| && d2.order[j] == d3.order[k];
        assert SameRecord(n1, d1, n2, d2, i, j) && SameRecord(n2, d2, n3, d3, j, k);
      }
    }
  }

  lemma {:induction false} SurviveRemoveAt(nodes: seq<Ptr>, db: Db, i: nat)
    requires |nodes| == |db.order| && i < |nodes| && Valid(db)
    ensures Survive(nodes, db, RemoveAt(nodes, i), Delete(db, db.order[i]))
  {
    WithoutAt(db.order, i);
    var t, db' := RemoveAt(nodes, i), Delete(db, db.order[i]);
    forall k: nat, j: nat | k < |nodes| && j < |t| ensures SameRecord(nodes, db, t, db', k, j) {
      var j' := if j < i then j else j + 1;
      assert nodes[j'] == t[j] && db.order[j'] == db'.order[j];
      SamePlace(db.order, j', k);
    }
  }

  /** A module that is still there is found again at some position, never the head
      if it was not the head before. */
  lemma {:induction false} FindAgain(heap: Store, head: Ptr, nodes: seq<Ptr>, db: Db, nodes0: seq<Ptr>, db0: Db, i: nat) returns (j: nat)
    requires Repr(heap, head, nodes, db) && Survive(nodes0, db0, nodes, db)
    requires 0 < i < |nodes0| && db0.order[i] in db.mods && nodes0[i] != head
    ensures 0 < j < |nodes| && nodes[j] == nodes0[i] && db.order[j] == db0.order[i] && nodes[j] in heap
  {
    assert db0.order[i] in Elements(db.order);
    j :| 0 <= j < |db.order| && db.order[j] == db0.order[i];
    assert SameRecord(nodes0, db0, nodes, db, i, j);
    assert NodeOk(heap, nodes, db, j);
  }

  // ---------- counting in the imports of a module ----------

  /** The first k of the imports have been counted in. */
  ghost predicate Counting(db0: Db, db: Db, imports: seq<Name>, k: nat) {
    && k <= |imports| && db.order == db0.order && db.mods.Keys == db0.mods.Keys
    && CountIn(db, imports[k..]) == CountIn(db0, imports)
  }

  lemma {:induction false} CountingStart(db: Db, imports: seq<Name>)
    ensures Counting(db, db, imports, 0)
  {
    assert imports[0..] == imports;
  }

  lemma {:induction false} CountingStep(db0: Db, db: Db, imports: seq<Name>, k: nat)
    requires Counting(db0, db, imports, k) && k < |imports|
    ensures Counting(db0, if imports[k] in db.mods then Bump(db, imports[k], 1) else db, imports, k + 1)
  {
    assert imports[k..][0] == imports[k] && imports[k..][1..] == imports[k + 1..];
    if imports[k] in db.mods {
      assert Bump(db, imports[k], 1).mods.Keys == db.mods.Keys;
    }
  }

  lemma {:induction false} CountingDone(db0: Db, db: Db, n: Name)
    requires n in db0.mods && !db0.mods[n].refed && db0.mods[n].image.hasImports
    requires Counting(db0, db, db0.mods[n].image.imports, |db0.mods[n].image.imports|)
    ensures n in db.mods && db.order == db0.order
    ensures UpdateRefcount(db0, n) == WithRefed(db, n)
  {
    var imports := db0.mods[n].image.imports;
    assert imports[|imports|..] == [];
  }

  // ---------- walking the run of new modules ----------

  /** Every module from position lo on up to, but not including, p can be bound. */
  ghost predicate BoundTo(db: Db, env: Env, lo: nat, p: nat) {
    && Valid(db) && p <= |db.order|
    && forall k {:trigger db.order[k]} :: lo <= k < p ==> db.order[k] in db.mods && Bindable(db, db.order[k], env)
  }

  lemma {:induction false} BoundRun(db: Db, env: Env, lo: nat)
    requires lo <= |db.order| && BoundTo(db, env, lo, |db.order|)
    ensures forall n :: n in db.order[lo..] ==> n in db.mods && Bindable(db, n, env)
  {
    forall n | n in db.order[lo..] ensures n in db.mods && Bindable(db, n, env) {
      var k :| 0 <= k < |db.order| - lo && db.order[lo..][k] == n;
      assert db.order[lo + k] == n;
    }
  }

  lemma {:induction false} InOrder(db: Db)
    requires Valid(db)
    ensures forall n :: n in db.order ==> n in db.mods
  {
    forall n | n in db.order ensures n in db.mods {
      var k :| 0 <= k < |db.order| && db.order[k] == n;
      assert n in Elements(db.order);
    }
  }

  /** Attach for the modules from position lo on. */
  ghost function AttachFrom(db: Db, lo: nat, env: Env, main: Name): Loaded
    requires Valid(db) && lo <= |db.order|
  {
    InOrder(db);
    Attach(db, db.order[lo..], env, main)
  }

  /** Calling the entry point of one module, if it has to be called. */
  ghost function AttachOne(db: Db, n: Name, env: Env, main: Name): Loaded
    requires n in db.mods
  {
    if !Calls(db, n, env, main) then Loaded(true, db)
    else if n in env.uninit then Loaded(false, db)
    else Loaded(true, WithInited(db, n))
  }

  lemma {:induction false} AttachFromNext(db: Db, env: Env, main: Name, p: nat)
    requires Valid(db) && p < |db.order|
    ensures db.order[p] in db.mods
    ensures var r := AttachOne(db, db.order[p], env, main);
            && Valid(r.db) && r.db.order == db.order
            && AttachFrom(db, p, env, main) == if r.ok then AttachFrom(r.db, p + 1, env, main) else r
  {
    var n := db.order[p];
    InOrder(db);
    assert db.order[p..][0] == n && db.order[p..][1..] == db.order[p + 1..];
    assert n in db.order;
    assert WithInited(db, n).mods.Keys == db.mods.Keys;
  }

  /** UpdateAll for the modules from position lo on. */
  ghost function UpdateFrom(db: Db, lo: nat): Db
    requires Valid(db) && lo <= |db.order|
  {
    InOrder(db);
    UpdateAll(db, db.order[lo..])
  }

  /** Counting the imports of the modules one by one from position p on leads to the
      given result. */
  ghost predicate Recounting(db: Db, p: nat, goal: Db)
    decreases |db.order| - p
  {
    if p >= |db.order| then p == |db.order| && db == goal
    else
      && db.order[p] in db.mods
      && Recounting(UpdateRefcount(db, db.order[p]), p + 1, goal)
  }

  lemma {:induction false} RecountingAll(db: Db, p: nat)
    requires Valid(db) && p <= |db.order|
    ensures Recounting(db, p, UpdateFrom(db, p))
    decreases |db.order| - p
  {
    if p < |db.order| {
      InOrder(db);
      assert db.order[p..][0] == db.order[p] && db.order[p..][1..] == db.order[p + 1..];
      RecountingAll(UpdateRefcount(db, db.order[p]), p + 1);
    }
  }

  // ---------- every live record is in the list ----------

  ghost function Records(nodes: seq<Ptr>, k: nat): set<Ptr>
    requires k <= |nodes|
  {
    set i | 0 <= i < k :: nodes[i]
  }

  lemma {:induction false} RecordsSize(heap: Store, head: Ptr, nodes: seq<Ptr>, db: Db, k: nat)
    requires Repr(heap, head, nodes, db) && k <= |nodes|
    ensures |Records(nodes, k)| == k && Records(nodes, k) <= heap.Keys
  {
    if k == 0 {
      assert Records(nodes, 0) == {};
    } else {
      RecordsSize(heap, head, nodes, db, k - 1);
      assert NodeOk(heap, nodes, db, k - 1);
      assert Records(nodes, k) == Records(nodes, k - 1) + {nodes[k - 1]};
      if nodes[k - 1] in Records(nodes, k - 1) {
        var i :| 0 <= i < k - 1 && nodes[i] == nodes[k - 1];
        NodesDiffer(heap, head, nodes, db, i, k - 1);
        assert false;
      }
    }
  }

  lemma {:induction false} LiveIsListed(heap: Store, head: Ptr, nodes: seq<Ptr>, db: Db, p: Ptr)
    requires Repr(heap, head, nodes, db) && forall i :: 0 <= i < |nodes| ==> nodes[i] != p
    ensures p !in heap
  {
    RecordsSize(heap, head, nodes, db, |nodes|);
    var s := Records(nodes, |nodes|);
    assert |heap| == |heap.Keys|;
    assert |heap.Keys - s| == |heap.Keys| - |s|;
    assert heap.Keys - s == {};
  }
}
