/**
 * `DependencyGraph`: forward and reverse dependency maps between names, a
 * containment index from registered modules to the dependency targets filed
 * under them, and the set of registered module files. Every field is updated
 * in place; each method states its new state through the functions of
 * `DependencyState`, whose properties are proved there.
 */
module DependencyGraphs {
  import opened Options
  import opened DottedNames
  import opened DependencyState

  /**
   * The ancestor walk inside `update`: `cur` loses its last dotted segment
   * until a registered module is found (the `break`) or no dot is left.
   */
  method FindRegisteredAncestor(value: string, moduleFiles: set<string>) returns (owner: Option<string>)
    ensures owner == NearestRegistered(value, moduleFiles)
  {
    var cur := value;
    while '.' in cur
      invariant NearestRegistered(cur, moduleFiles) == NearestRegistered(value, moduleFiles)
      decreases |cur|
    {
      var (parent, _) := RSplitDot(cur);
      if parent in moduleFiles {
        return Some(parent);
      }
      cur := parent;
    }
    return None;
  }

  /**
   * The loop of `get_dependencies` and `get_reverse_dependencies` over one
   * `defaultdict(set)`: `result |= index[target]` for each target in turn,
   * where reading a missing target stores an empty set under it.
   */
  method CollectFrom(index: Index, targets: seq<string>) returns (result: set<string>, after: Index)
    ensures result == UnionOver(index, targets)
    ensures forall x :: x in result <==> exists i :: 0 <= i < |targets| && x in Lookup(index, targets[i])
    ensures after == Vivified(index, targets)
  {
    result := {};
    after := index;
    var i := 0;
    while i < |targets|
      invariant 0 <= i <= |targets|
      invariant result == UnionOver(index, targets[..i])
      invariant after == Vivified(index, targets[..i])
    {
      var target := targets[i];
      assert targets[..i + 1] == targets[..i] + [target];
      VivifiedStep(index, targets[..i], target);
      UnionOverStep(index, targets[..i], target);
      if target !in after {
        after := after[target := {}];
      }
      assert after[target] == Lookup(index, target);
      result := result + after[target];
      i := i + 1;
    }
    assert targets[..i] == targets;
    forall x ensures x in result <==> exists i :: 0 <= i < |targets| && x in Lookup(index, targets[i]) {
      UnionOverMembers(index, targets, x);
    }
  }

  class DependencyGraph {
    var deps: Index
    var parentModules: Index
    var reverseDeps: Index
    var moduleFiles: set<string>

    /** The whole state as a value. */
    ghost function Model(): Graph
      reads this
    {
      Graph(deps, parentModules, reverseDeps, moduleFiles)
    }

    ghost predicate Valid()
      reads this
    {
      Consistent(Model())
    }

    /**
     * `DependencyGraph(dependency_map, module_files)`: an empty graph with the
     * given module files, then one `update` per entry of the map, in order.
     */
    constructor (dependencyMap: seq<(string, set<string>)>, moduleFiles: set<string>)
      ensures Valid()
      ensures Model() == Build(dependencyMap, moduleFiles)
    {
      deps := map[];
      parentModules := map[];
      reverseDeps := map[];
      this.moduleFiles := moduleFiles;
      new;
      var i := 0;
      while i < |dependencyMap|
        invariant 0 <= i <= |dependencyMap|
        invariant Model() == Build(dependencyMap[..i], moduleFiles)
        invariant Valid()
      {
        var (k, v) := dependencyMap[i];
        Update(k, v);
        assert dependencyMap[..i + 1][..i] == dependencyMap[..i];
        i := i + 1;
      }
      assert dependencyMap[..i] == dependencyMap;
    }

    /** The `module_files` property. */
    function ModuleFiles(): set<string>
      reads this
    {
      moduleFiles
    }

    /** `key in graph`: exactly when `get(key)` finds a stored set. */
    predicate Contains(key: string)
      reads this
      ensures Contains(key) <==> Get(key, None).Some?
    {
      key in deps
    }

    /** `get(key, default)`: the forward set of `key`, or `default`; stores nothing. */
    function Get(key: string, default: Option<set<string>>): (r: Option<set<string>>)
      reads this
      ensures key !in deps ==> r == default
      ensures key in deps ==> r == Some(deps[key])
    {
      Find(deps, key, default)
    }

    /** `get_reverse(key, default)`: the reverse set of `key`, or `default`; stores nothing. */
    function GetReverse(key: string, default: Option<set<string>>): (r: Option<set<string>>)
      reads this
      ensures key !in reverseDeps ==> r == default
      ensures key in reverseDeps ==> r == Some(reverseDeps[key])
    {
      Find(reverseDeps, key, default)
    }

    /** `items()`: the stored (key, forward set) pairs; their order is not modelled. */
    function Items(): (r: set<(string, set<string>)>)
      reads this
      ensures forall k, s :: (k, s) in r <==> k in deps && deps[k] == s
    {
      set k | k in deps :: (k, deps[k])
    }

    /** `add_module_file(module)`: registers the name; no stored target is re-filed. */
    method AddModuleFile(name: string)
      requires Valid()
      modifies this
      ensures Valid()
      ensures Model() == WithModuleFile(old(Model()), name)
    {
      WithModuleFileConsistent(Model(), name);
      moduleFiles := moduleFiles + {name};
    }

    /**
     * `update(key, values)`: adds every forward edge `key -> v`, files each `v`
     * under its nearest registered ancestor unless no module file is
     * registered or `v` is a pseudo-node, and records the reverse edge
     * `v -> key` with the wildcard marker removed.
     */
    method Update(key: string, values: set<string>)
      requires Valid()
      modifies this
      ensures Valid()
      ensures Model() == Updated(old(Model()), key, values)
    {
      deps := deps[key := Lookup(deps, key) + values];
      var rest := values;
      ghost var done: set<string> := {};
      ghost var filed := Filing(moduleFiles);
      NothingAddedYet(reverseDeps, parentModules, StripWildcard(key), filed);
      while rest != {}
        invariant rest + done == values && rest !! done
        invariant deps == AddEdges(old(deps), key, values)
        invariant moduleFiles == old(moduleFiles)
        invariant reverseDeps == AddReverse(old(reverseDeps), StripWildcard(key), done)
        invariant parentModules == AddContainment(old(parentModules), filed, done)
        decreases rest
      {
        var value :| value in rest;
        if moduleFiles != {} && !StartsWith(value, "<") {
          var owner := FindRegisteredAncestor(value, moduleFiles);
          if owner.Some? {
            var parent := owner.value;
            AddContainmentStepFiled(old(parentModules), filed, done, value, parent);
            parentModules := parentModules[parent := Lookup(parentModules, parent) + {value}];
          } else {
            AddContainmentStepUnfiled(old(parentModules), filed, done, value);
          }
        } else {
          AddContainmentStepUnfiled(old(parentModules), filed, done, value);
        }
        AddReverseStep(old(reverseDeps), StripWildcard(key), done, value);
        reverseDeps := reverseDeps[value := Lookup(reverseDeps, value) + {StripWildcard(key)}];
        rest := rest - {value};
        done := done + {value};
      }
      UpdateConsistent(old(Model()), key, values);
    }

    /** `get_others_in_module(module)`: the containment entry, stored as empty when missing. */
    method GetOthersInModule(name: string) returns (r: set<string>)
      requires Valid()
      modifies this
      ensures Valid()
      ensures r == Lookup(old(parentModules), name)
      ensures Model() == old(Model()).(parentModules := Vivified(old(parentModules), [name]))
    {
      VivifiedContainmentConsistent(Model(), [name]);
      if name !in parentModules {
        parentModules := parentModules[name := {}];
      }
      r := parentModules[name];
      assert parentModules == Vivified(old(parentModules), [name]);
    }

    /** `get_dependencies(targets)`: the union of the targets' forward sets; every target becomes a forward key. */
    method GetDependencies(targets: seq<string>) returns (r: set<string>)
      requires Valid()
      modifies this
      ensures Valid()
      ensures forall x :: x in r <==> exists i :: 0 <= i < |targets| && x in Lookup(old(deps), targets[i])
      ensures Model() == old(Model()).(deps := Vivified(old(deps), targets))
    {
      VivifiedDepsConsistent(Model(), targets);
      r, deps := CollectFrom(deps, targets);
    }

    /** `get_reverse_dependencies(targets)`: the same over the reverse map. */
    method GetReverseDependencies(targets: seq<string>) returns (r: set<string>)
      requires Valid()
      modifies this
      ensures Valid()
      ensures forall x :: x in r <==> exists i :: 0 <= i < |targets| && x in Lookup(old(reverseDeps), targets[i])
      ensures Model() == old(Model()).(reverseDeps := Vivified(old(reverseDeps), targets))
    {
      VivifiedReverseConsistent(Model(), targets);
      r, reverseDeps := CollectFrom(reverseDeps, targets);
    }
  }
}
