/**
 * The state of a dependency graph as a value: the forward map, the
 * containment index, the reverse map and the registered module files,
 * together with the functions that say what each mutating operation turns
 * that state into, and the properties of those functions.
 */
module DependencyState {
  import opened Options
  import opened DottedNames

  /** A `defaultdict(set)` keyed by name: only the keys actually stored are present. */
  type Index = map<string, set<string>>

  datatype Graph = Graph(
    deps: Index,
    parentModules: Index,
    reverseDeps: Index,
    moduleFiles: set<string>)

  /** Reading a `defaultdict(set)` without storing: a missing key reads as the empty set. */
  function Lookup(m: Index, k: string): (r: set<string>)
    ensures k !in m ==> r == {}
    ensures k in m ==> r == m[k]
  {
    if k in m then m[k] else {}
  }

  /** `dict.get(key, default)`: the stored set, or `default` when the key is absent. */
  function Find(m: Index, key: string, default: Option<set<string>>): (r: Option<set<string>>)
    ensures key !in m ==> r == default
    ensures key in m ==> r == Some(m[key])
  {
    if key in m then Some(m[key]) else default
  }

  function Empty(moduleFiles: set<string>): Graph {
    Graph(map[], map[], map[], moduleFiles)
  }

  /**
   * The module whose containment entry receives the dependency target `v`,
   * or None when `update` touches no containment entry for it.
   */
  function Owner(v: string, moduleFiles: set<string>): (r: Option<string>)
    ensures r.Some? ==> !StartsWith(v, "<") && r.value in moduleFiles && |r.value| < |v|
  {
    if moduleFiles != {} && !StartsWith(v, "<") then NearestRegistered(v, moduleFiles) else None
  }

  /**
   * A target is filed under its nearest registered ancestor, and under nothing
   * exactly when no module file is registered, it is a pseudo-node, or none
   * of its dotted ancestors is registered.
   */
  lemma OwnerIsNearest(v: string, moduleFiles: set<string>)
    ensures var r := Owner(v, moduleFiles);
      && (r.Some? ==> moduleFiles != {} && !StartsWith(v, "<") && IsNearestRegistered(r.value, v, moduleFiles))
      && (r.None? <==>
            || moduleFiles == {}
            || StartsWith(v, "<")
            || forall a :: IsDottedAncestor(a, v) ==> a !in moduleFiles)
  {
    NearestRegisteredIsNearest(v, moduleFiles);
  }

  /** `Owner` for a fixed set of module files, as a function of the target. */
  function Filing(moduleFiles: set<string>): string -> Option<string> {
    v => Owner(v, moduleFiles)
  }

  /** The targets among `values` that `owner` files under module `p`. */
  function Owned(values: set<string>, owner: string -> Option<string>, p: string): set<string> {
    set v | v in values && owner(v) == Some(p)
  }

  /** The modules under which `owner` files some target among `values`. */
  function Owners(values: set<string>, owner: string -> Option<string>): set<string> {
    set v | v in values && owner(v).Some? :: owner(v).value
  }

  /** `self._deps[key].update(values)`. */
  function AddEdges(deps: Index, key: string, values: set<string>): (r: Index)
    ensures r.Keys == deps.Keys + {key}
    ensures values <= r[key]
    ensures forall k :: k in deps ==> deps[k] <= r[k]
    ensures forall k :: k in deps && k != key ==> r[k] == deps[k]
  {
    deps[key := Lookup(deps, key) + values]
  }

  /** `self._reverse_deps[value].add(source)` for every `value` in `targets`. */
  function AddReverse(rev: Index, source: string, targets: set<string>): (r: Index)
    ensures r.Keys == rev.Keys + targets
    ensures forall t :: t in targets ==> source in r[t]
    ensures forall t :: t in rev ==> rev[t] <= r[t]
    ensures forall t :: t in rev && t !in targets ==> r[t] == rev[t]
  {
    map t | t in rev.Keys + targets :: if t in targets then Lookup(rev, t) + {source} else rev[t]
  }

  /** `self._parent_modules[parent].add(value)` for every `value` in `values` that has an owner. */
  function AddContainment(parents: Index, owner: string -> Option<string>, values: set<string>): (r: Index)
    ensures forall p :: p in parents ==> p in r && parents[p] <= r[p]
  {
    map p | p in parents.Keys + Owners(values, owner) :: Lookup(parents, p) + Owned(values, owner, p)
  }

  /** The state after `update(key, values)`. */
  function Updated(g: Graph, key: string, values: set<string>): (r: Graph)
    ensures Grows(g, r)
    ensures r.moduleFiles == g.moduleFiles
    ensures key in r.deps && values <= r.deps[key]
  {
    g.(deps := AddEdges(g.deps, key, values),
       parentModules := AddContainment(g.parentModules, Filing(g.moduleFiles), values),
       reverseDeps := AddReverse(g.reverseDeps, StripWildcard(key), values))
  }

  /** The state after `add_module_file(module)`. */
  function WithModuleFile(g: Graph, name: string): (r: Graph)
    ensures name in r.moduleFiles && g.moduleFiles <= r.moduleFiles
    ensures r.deps == g.deps && r.parentModules == g.parentModules && r.reverseDeps == g.reverseDeps
  {
    g.(moduleFiles := g.moduleFiles + {name})
  }

  /** The state after constructing from `entries` (the items of `dependency_map`, in order). */
  function Build(entries: seq<(string, set<string>)>, moduleFiles: set<string>): (r: Graph)
    ensures r.moduleFiles == moduleFiles
  {
    if entries == [] then
      Empty(moduleFiles)
    else
      var last := entries[|entries| - 1];
      Updated(Build(entries[..|entries| - 1], moduleFiles), last.0, last.1)
  }

  /** `m` with an empty entry stored for every name in `targets` that was missing: the effect of `m[t]` on a `defaultdict`. */
  function Vivified(m: Index, targets: seq<string>): (r: Index)
    ensures r.Keys == m.Keys + set t | t in targets
    ensures forall k :: k in r ==> r[k] == Lookup(m, k)
    ensures forall k :: Lookup(r, k) == Lookup(m, k)
  {
    map k | k in m.Keys + (set t | t in targets) :: Lookup(m, k)
  }

  /** The union of the sets stored under `targets`, missing names counting as empty. */
  function UnionOver(m: Index, targets: seq<string>): (r: set<string>)
  {
    if targets == [] then {} else UnionOver(m, targets[..|targets| - 1]) + Lookup(m, targets[|targets| - 1])
  }

  // ---------------------------------------------------------------------------
  // Invariants of a graph
  // ---------------------------------------------------------------------------

  /** Every forward edge `k -> v` has its reverse edge `v -> StripWildcard(k)`. */
  ghost predicate ReverseMirrorsForward(g: Graph) {
    forall k, v :: k in g.deps && v in g.deps[k] ==> StripWildcard(k) in Lookup(g.reverseDeps, v)
  }

  /** Every reverse edge `t -> s` comes from a forward edge `k -> t` with `StripWildcard(k) == s`. */
  ghost predicate ReverseFromForward(g: Graph) {
    forall t, s :: t in g.reverseDeps && s in g.reverseDeps[t] ==>
      exists k :: k in g.deps && t in g.deps[k] && StripWildcard(k) == s
  }

  /** `v` is the target of some forward edge. */
  ghost predicate IsTarget(g: Graph, v: string) {
    exists k :: k in g.deps && v in g.deps[k]
  }

  /**
   * Every containment entry `p -> v` files a dependency target `v` that is
   * no pseudo-node under a registered module `p` that is a dotted ancestor of `v`.
   */
  ghost predicate ContainmentSound(g: Graph) {
    forall p, v :: p in g.parentModules && v in g.parentModules[p] ==> FiledSoundly(g, p, v)
  }

  ghost predicate FiledSoundly(g: Graph, p: string, v: string) {
    && p in g.moduleFiles
    && IsDottedAncestor(p, v)
    && !StartsWith(v, "<")
    && IsTarget(g, v)
  }

  ghost predicate Consistent(g: Graph) {
    ReverseMirrorsForward(g) && ReverseFromForward(g) && ContainmentSound(g)
  }

  /** `h` holds every key and every element `g` holds, and the same module files. */
  ghost predicate Grows(g: Graph, h: Graph) {
    && IndexGrows(g.deps, h.deps)
    && IndexGrows(g.parentModules, h.parentModules)
    && IndexGrows(g.reverseDeps, h.reverseDeps)
    && g.moduleFiles <= h.moduleFiles
  }

  ghost predicate IndexGrows(m: Index, n: Index) {
    forall k :: k in m ==> k in n && m[k] <= n[k]
  }

  // ---------------------------------------------------------------------------
  // update
  // ---------------------------------------------------------------------------

  /** After `update(key, values)` the forward set of `key` is its old set plus `values`, even when `values` is empty; no other key changes. */
  lemma UpdateForward(g: Graph, key: string, values: set<string>)
    ensures var h := Updated(g, key, values);
      && key in h.deps
      && h.deps[key] == Lookup(g.deps, key) + values
      && (forall k :: k != key ==> (k in h.deps <==> k in g.deps) && Lookup(h.deps, k) == Lookup(g.deps, k))
      && h.moduleFiles == g.moduleFiles
  {
  }

  /** After `update(key, values)` each target's reverse set holds the stripped key; only the targets' reverse sets change. */
  lemma UpdateReverse(g: Graph, key: string, values: set<string>)
    ensures var h := Updated(g, key, values);
      && (forall v :: v in values ==> v in h.reverseDeps && h.reverseDeps[v] == Lookup(g.reverseDeps, v) + {StripWildcard(key)})
      && (forall t :: t !in values ==> (t in h.reverseDeps <==> t in g.reverseDeps) && Lookup(h.reverseDeps, t) == Lookup(g.reverseDeps, t))
  {
  }

  /**
   * After `update(key, values)` a target `v` is in the containment entry of
   * its owner; the entries of every other module gain or lose nothing for `v`.
   */
  lemma UpdateContainment(g: Graph, key: string, values: set<string>, v: string, q: string)
    requires v in values
    ensures var h := Updated(g, key, values);
      && (Owner(v, g.moduleFiles) == Some(q) ==> q in h.parentModules && v in h.parentModules[q])
      && (Owner(v, g.moduleFiles) != Some(q) ==> (v in Lookup(h.parentModules, q) <==> v in Lookup(g.parentModules, q)))
  {
    var h := Updated(g, key, values);
    if Owner(v, g.moduleFiles) == Some(q) {
      assert q in Owners(values, Filing(g.moduleFiles));
      assert v in Owned(values, Filing(g.moduleFiles), q);
    }
  }

  /** Every element a containment entry gains in `update` is a target among `values` owned by that entry's module. */
  lemma UpdateContainmentGains(g: Graph, key: string, values: set<string>, p: string, x: string)
    requires x in Lookup(Updated(g, key, values).parentModules, p)
    ensures x in Lookup(g.parentModules, p) || (x in values && Owner(x, g.moduleFiles) == Some(p))
  {
  }

  /**
   * No containment entry is touched when no module file is registered, when
   * every target is a pseudo-node, or when no target has a registered ancestor.
   */
  lemma UpdateContainmentUntouched(g: Graph, key: string, values: set<string>)
    requires || g.moduleFiles == {}
             || (forall v :: v in values ==> StartsWith(v, "<"))
             || (forall v, a :: v in values && IsDottedAncestor(a, v) ==> a !in g.moduleFiles)
    ensures Updated(g, key, values).parentModules == g.parentModules
  {
    forall v | v in values ensures Owner(v, g.moduleFiles) == None {
      OwnerIsNearest(v, g.moduleFiles);
    }
    assert Owners(values, Filing(g.moduleFiles)) == {};
    var h := Updated(g, key, values);
    forall p | p in g.parentModules ensures h.parentModules[p] == g.parentModules[p] {
      assert Owned(values, Filing(g.moduleFiles), p) == {};
    }
  }

  /** One more target in the loop of `update` adds the stripped key to that target's reverse set. */
  lemma AddReverseStep(rev: Index, source: string, done: set<string>, value: string)
    ensures var r := AddReverse(rev, source, done);
            AddReverse(rev, source, done + {value}) == r[value := Lookup(r, value) + {source}]
  {
    var r := AddReverse(rev, source, done);
    var r2 := AddReverse(rev, source, done + {value});
    var r3 := r[value := Lookup(r, value) + {source}];
    assert r2.Keys == r3.Keys;
    forall t | t in r2 ensures r2[t] == r3[t] {
    }
  }

  /** Before the loop of `update` has visited any target, neither index has changed. */
  lemma NothingAddedYet(rev: Index, parents: Index, source: string, owner: string -> Option<string>)
    ensures AddReverse(rev, source, {}) == rev
    ensures AddContainment(parents, owner, {}) == parents
  {
    assert Owners({}, owner) == {};
    var c := AddContainment(parents, owner, {});
    assert c.Keys == parents.Keys;
    forall p | p in c ensures c[p] == parents[p] {
      assert Owned({}, owner, p) == {};
    }
  }

  lemma OwnedStep(done: set<string>, owner: string -> Option<string>, value: string, q: string)
    ensures Owned(done + {value}, owner, q)
         == if owner(value) == Some(q) then Owned(done, owner, q) + {value}
            else Owned(done, owner, q)
  {
  }

  lemma OwnersStep(done: set<string>, owner: string -> Option<string>, value: string)
    ensures Owners(done + {value}, owner)
         == match owner(value)
            case Some(p) => Owners(done, owner) + {p}
            case None => Owners(done, owner)
  {
  }

  /** One more target in the loop of `update` that is filed under `p` joins `p`'s containment entry. */
  lemma AddContainmentStepFiled(parents: Index, owner: string -> Option<string>, done: set<string>, value: string, p: string)
    requires owner(value) == Some(p)
    ensures var c := AddContainment(parents, owner, done);
            AddContainment(parents, owner, done + {value}) == c[p := Lookup(c, p) + {value}]
  {
    var c := AddContainment(parents, owner, done);
    var c2 := AddContainment(parents, owner, done + {value});
    var c3 := c[p := Lookup(c, p) + {value}];
    OwnersStep(done, owner, value);
    assert c2.Keys == c3.Keys;
    forall q | q in c2 ensures c2[q] == c3[q] {
      OwnedStep(done, owner, value, q);
    }
  }

  /** One more target in the loop of `update` that is filed nowhere leaves the containment index alone. */
  lemma AddContainmentStepUnfiled(parents: Index, owner: string -> Option<string>, done: set<string>, value: string)
    requires owner(value) == None
    ensures AddContainment(parents, owner, done + {value}) == AddContainment(parents, owner, done)
  {
    var c := AddContainment(parents, owner, done);
    var c2 := AddContainment(parents, owner, done + {value});
    OwnersStep(done, owner, value);
    assert c2.Keys == c.Keys;
    forall q | q in c2 ensures c2[q] == c[q] {
      OwnedStep(done, owner, value, q);
    }
  }

  lemma AddReverseIdempotent(rev: Index, source: string, targets: set<string>)
    ensures AddReverse(AddReverse(rev, source, targets), source, targets) == AddReverse(rev, source, targets)
  {
    var r1 := AddReverse(rev, source, targets);
    var r2 := AddReverse(r1, source, targets);
    assert r2.Keys == r1.Keys;
    forall t | t in r1 ensures r2[t] == r1[t] {
      if t in targets {
        assert Lookup(r1, t) == Lookup(rev, t) + {source};
      }
    }
  }

  lemma AddContainmentIdempotent(parents: Index, owner: string -> Option<string>, values: set<string>)
    ensures AddContainment(AddContainment(parents, owner, values), owner, values)
         == AddContainment(parents, owner, values)
  {
    var p1 := AddContainment(parents, owner, values);
    var p2 := AddContainment(p1, owner, values);
    assert p2.Keys == p1.Keys;
    forall p | p in p1 ensures p2[p] == p1[p] {
      assert Lookup(p1, p) == Lookup(parents, p) + Owned(values, owner, p);
    }
  }

  /** Calling `update(key, values)` twice leaves the same state as calling it once. */
  lemma UpdateIdempotent(g: Graph, key: string, values: set<string>)
    ensures Updated(Updated(g, key, values), key, values) == Updated(g, key, values)
  {
    var h := Updated(g, key, values);
    var h2 := Updated(h, key, values);
    var source := StripWildcard(key);
    assert h.moduleFiles == g.moduleFiles;
    assert h2.deps == h.deps by {
      assert Lookup(h.deps, key) == Lookup(g.deps, key) + values;
    }
    assert h2.reverseDeps == h.reverseDeps by {
      AddReverseIdempotent(g.reverseDeps, source, values);
    }
    assert h2.parentModules == h.parentModules by {
      AddContainmentIdempotent(g.parentModules, Filing(g.moduleFiles), values);
    }
  }

  /** A target of `g` stays a target of any graph whose forward map grows from `g`'s. */
  lemma TargetStays(g: Graph, h: Graph, v: string)
    requires IsTarget(g, v)
    requires IndexGrows(g.deps, h.deps)
    ensures IsTarget(h, v)
  {
    var k :| k in g.deps && v in g.deps[k];
    assert k in h.deps && v in h.deps[k];
  }

  lemma UpdateMirrors(g: Graph, key: string, values: set<string>)
    requires ReverseMirrorsForward(g)
    ensures ReverseMirrorsForward(Updated(g, key, values))
  {
    var h := Updated(g, key, values);
    UpdateReverse(g, key, values);
    forall k, v | k in h.deps && v in h.deps[k] ensures StripWildcard(k) in Lookup(h.reverseDeps, v) {
      if k == key && v in values {
        assert StripWildcard(key) in h.reverseDeps[v];
      } else {
        assert k in g.deps && v in g.deps[k];
        assert StripWildcard(k) in Lookup(g.reverseDeps, v);
      }
    }
  }

  lemma UpdateReflects(g: Graph, key: string, values: set<string>)
    requires ReverseFromForward(g)
    ensures ReverseFromForward(Updated(g, key, values))
  {
    var h := Updated(g, key, values);
    UpdateReverse(g, key, values);
    forall t, x | t in h.reverseDeps && x in h.reverseDeps[t]
      ensures exists k :: k in h.deps && t in h.deps[k] && StripWildcard(k) == x
    {
      if t in values && x == StripWildcard(key) {
        assert key in h.deps && t in h.deps[key];
      } else {
        assert t in g.reverseDeps && x in g.reverseDeps[t];
        var k :| k in g.deps && t in g.deps[k] && StripWildcard(k) == x;
        assert k in h.deps && t in h.deps[k];
      }
    }
  }

  lemma UpdateContainmentSound(g: Graph, key: string, values: set<string>)
    requires ContainmentSound(g)
    ensures ContainmentSound(Updated(g, key, values))
  {
    var h := Updated(g, key, values);
    forall p, v | p in h.parentModules && v in h.parentModules[p]
      ensures FiledSoundly(h, p, v)
    {
      UpdateContainmentGains(g, key, values, p, v);
      if v in Lookup(g.parentModules, p) {
        assert p in g.parentModules && v in g.parentModules[p];
        assert FiledSoundly(g, p, v);
        TargetStays(g, h, v);
      } else {
        OwnerIsNearest(v, g.moduleFiles);
        assert key in h.deps && v in h.deps[key];
      }
    }
  }

  /** `update` keeps the graph consistent. */
  lemma UpdateConsistent(g: Graph, key: string, values: set<string>)
    requires Consistent(g)
    ensures Consistent(Updated(g, key, values))
  {
    UpdateMirrors(g, key, values);
    UpdateReflects(g, key, values);
    UpdateContainmentSound(g, key, values);
  }

  // ---------------------------------------------------------------------------
  // add_module_file and construction
  // ---------------------------------------------------------------------------

  /** `add_module_file` is idempotent, leaves the three maps alone and keeps the graph consistent. */
  lemma WithModuleFileConsistent(g: Graph, name: string)
    requires Consistent(g)
    ensures Consistent(WithModuleFile(g, name))
    ensures WithModuleFile(WithModuleFile(g, name), name) == WithModuleFile(g, name)
  {
    ContainmentSoundKept(g, WithModuleFile(g, name));
  }

  /**
   * Registering a module does not re-index targets added before: with `a.b`
   * already a target, registering `a` afterwards leaves `a`'s entry empty,
   * while registering it first would have filed `a.b` under `a`.
   */
  lemma ModuleFileNotRetroactive()
    ensures var before := WithModuleFile(Updated(Empty({"x"}), "k", {"a.b"}), "a");
            Lookup(before.parentModules, "a") == {}
    ensures var after := Updated(WithModuleFile(Empty({"x"}), "a"), "k", {"a.b"});
            Lookup(after.parentModules, "a") == {"a.b"}
  {
    var v := "a.b";
    RSplitDotUnique(v, "a", "b");
    assert Parent(v) == "a";
    assert "a" !in {"x"};
    assert NearestRegistered("a", {"x"}) == None;
    assert Owner(v, {"x"}) == None;
    assert Owner(v, {"x", "a"}) == Some("a");
    assert Owned({v}, Filing({"x", "a"}), "a") == {v};
    assert Owners({v}, Filing({"x"})) == {};
  }

  ghost predicate UsesKey(entries: seq<(string, set<string>)>, k: string) {
    exists i :: 0 <= i < |entries| && entries[i].0 == k
  }

  lemma UsesKeySplit(entries: seq<(string, set<string>)>, k: string)
    requires entries != []
    ensures UsesKey(entries, k) <==> entries[|entries| - 1].0 == k || UsesKey(entries[..|entries| - 1], k)
  {
    var init := entries[..|entries| - 1];
    assert forall i :: 0 <= i < |init| ==> init[i] == entries[i];
  }

  /** Every name never used as a key in `entries` is absent from the forward map. */
  lemma {:induction false} BuildKeys(entries: seq<(string, set<string>)>, moduleFiles: set<string>, k: string)
    ensures k in Build(entries, moduleFiles).deps <==> UsesKey(entries, k)
    ensures Build(entries, moduleFiles).moduleFiles == moduleFiles
  {
    if entries != [] {
      var init := entries[..|entries| - 1];
      var last := entries[|entries| - 1];
      BuildKeys(init, moduleFiles, k);
      UpdateForward(Build(init, moduleFiles), last.0, last.1);
      assert Build(entries, moduleFiles) == Updated(Build(init, moduleFiles), last.0, last.1);
      assert k in Build(entries, moduleFiles).deps <==> k == last.0 || k in Build(init, moduleFiles).deps;
      UsesKeySplit(entries, k);
    }
  }

  /** `get(k, default)` on a graph built from `entries` returns `default` exactly for the names no entry used as key. */
  lemma FindAfterBuild(entries: seq<(string, set<string>)>, moduleFiles: set<string>, k: string, default: Option<set<string>>)
    ensures !UsesKey(entries, k) ==> Find(Build(entries, moduleFiles).deps, k, default) == default
    ensures UsesKey(entries, k) ==> Find(Build(entries, moduleFiles).deps, k, default).Some?
  {
    BuildKeys(entries, moduleFiles, k);
  }

  /** A graph built from a dependency map is consistent. */
  lemma {:induction false} BuildConsistent(entries: seq<(string, set<string>)>, moduleFiles: set<string>)
    ensures Consistent(Build(entries, moduleFiles))
  {
    if entries != [] {
      var last := entries[|entries| - 1];
      BuildConsistent(entries[..|entries| - 1], moduleFiles);
      UpdateConsistent(Build(entries[..|entries| - 1], moduleFiles), last.0, last.1);
    }
  }

  // ---------------------------------------------------------------------------
  // get_dependencies, get_reverse_dependencies, get_others_in_module
  // ---------------------------------------------------------------------------

  /** An element is in the union over `targets` exactly when some target's set holds it. */
  lemma {:induction false} UnionOverMembers(m: Index, targets: seq<string>, x: string)
    ensures x in UnionOver(m, targets) <==> exists i :: 0 <= i < |targets| && x in Lookup(m, targets[i])
  {
    if targets != [] {
      var init := targets[..|targets| - 1];
      UnionOverMembers(m, init, x);
      assert forall i :: 0 <= i < |init| ==> init[i] == targets[i];
    }
  }

  /** Containment stays sound when its entries read the same, module files only grow and the forward map only grows. */
  lemma ContainmentSoundKept(g: Graph, h: Graph)
    requires ContainmentSound(g)
    requires g.moduleFiles <= h.moduleFiles
    requires IndexGrows(g.deps, h.deps)
    requires forall p :: Lookup(h.parentModules, p) == Lookup(g.parentModules, p)
    ensures ContainmentSound(h)
  {
    forall p, v | p in h.parentModules && v in h.parentModules[p]
      ensures FiledSoundly(h, p, v)
    {
      assert Lookup(h.parentModules, p) == Lookup(g.parentModules, p);
      assert p in g.parentModules && v in g.parentModules[p];
      assert FiledSoundly(g, p, v);
      TargetStays(g, h, v);
    }
  }

  /** Storing empty entries for missing forward keys keeps the graph consistent and only grows it. */
  lemma VivifiedDepsConsistent(g: Graph, targets: seq<string>)
    requires Consistent(g)
    ensures Consistent(g.(deps := Vivified(g.deps, targets)))
    ensures Grows(g, g.(deps := Vivified(g.deps, targets)))
  {
    var h := g.(deps := Vivified(g.deps, targets));
    forall t, x | t in h.reverseDeps && x in h.reverseDeps[t]
      ensures exists k :: k in h.deps && t in h.deps[k] && StripWildcard(k) == x
    {
      var k :| k in g.deps && t in g.deps[k] && StripWildcard(k) == x;
      assert k in h.deps && t in h.deps[k];
    }
    ContainmentSoundKept(g, h);
  }

  /** Storing empty entries for missing reverse keys keeps the graph consistent and only grows it. */
  lemma VivifiedReverseConsistent(g: Graph, targets: seq<string>)
    requires Consistent(g)
    ensures Consistent(g.(reverseDeps := Vivified(g.reverseDeps, targets)))
    ensures Grows(g, g.(reverseDeps := Vivified(g.reverseDeps, targets)))
  {
    var h := g.(reverseDeps := Vivified(g.reverseDeps, targets));
    forall t, x | t in h.reverseDeps && x in h.reverseDeps[t]
      ensures exists k :: k in h.deps && t in h.deps[k] && StripWildcard(k) == x
    {
      assert t in g.reverseDeps && x in g.reverseDeps[t];
    }
    ContainmentSoundKept(g, h);
  }

  /** Storing empty entries for missing containment keys keeps the graph consistent and only grows it. */
  lemma VivifiedContainmentConsistent(g: Graph, targets: seq<string>)
    requires Consistent(g)
    ensures Consistent(g.(parentModules := Vivified(g.parentModules, targets)))
    ensures Grows(g, g.(parentModules := Vivified(g.parentModules, targets)))
  {
    ContainmentSoundKept(g, g.(parentModules := Vivified(g.parentModules, targets)));
  }

  /** One more target read through `defaultdict` subscripting. */
  lemma VivifiedStep(m: Index, targets: seq<string>, t: string)
    ensures var v := Vivified(m, targets);
            Vivified(m, targets + [t]) == if t in v then v else v[t := {}]
  {
    var v := Vivified(m, targets);
    var w := if t in v then v else v[t := {}];
    assert (set x | x in targets + [t]) == (set x | x in targets) + {t};
    assert Vivified(m, targets + [t]).Keys == w.Keys;
  }

  /** One more target adds its set, a missing one counting as empty, to the union. */
  lemma UnionOverStep(m: Index, targets: seq<string>, t: string)
    ensures UnionOver(m, targets + [t]) == UnionOver(m, targets) + Lookup(m, t)
  {
    assert (targets + [t])[..|targets|] == targets;
  }

  /**
   * A read through `get_dependencies` makes a never-updated name a key of the
   * forward map, so `key in graph` becomes true for it.
   */
  lemma ReadCreatesMembership(g: Graph, t: string)
    requires t !in g.deps
    ensures t in Vivified(g.deps, [t]) && Vivified(g.deps, [t])[t] == {}
  {
  }
}
