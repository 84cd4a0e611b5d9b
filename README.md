# Dependency graph model

This project models mypy's `DependencyGraph` (`mypy/dependency_graphs.py`) and
proves properties of the model. `DependencyGraph` is an in-memory index of
dependency edges between names. It keeps:

- a forward map from a key to the names it depends on;
- a reverse map from a name to the (wildcard-stripped) keys that depend on it;
- a containment index from a registered module to the dependency targets
  filed under it (the target's nearest dotted ancestor that is a registered
  module file);
- the set of registered module files.

Every map in the source is a `defaultdict(set)`. The model stores it as a
`map<string, set<string>>` (`DependencyState.Index`) with `Lookup` for a read
that stores nothing. Wherever the source's `m[k]` stores an empty set under a
missing key, the model does so explicitly (`DependencyState.Vivified`).

Files:

- `dotted_names.dfy`:
  - module `Options`, holding the `Option` datatype;
  - module `DottedNames`, modelling `str.startswith`, `str.rsplit(".", 1)`,
    the walk up a dotted name to its nearest registered ancestor, and
    `str.replace(pattern, "")`.
- `dependency_state.dfy`: module `DependencyState`.
  - It holds the whole graph as a value (`Graph`), with the functions that
    give the state after each mutating operation: `Updated`,
    `WithModuleFile`, `Build` and `Vivified`.
  - It defines the invariant `Consistent`: every forward edge has its reverse
    edge, every reverse edge comes from a forward edge, and every containment
    entry files a real target under a registered dotted ancestor.
  - It proves the properties of these functions.
- `dependency_graph.dfy`: module `DependencyGraphs`, the class
  `DependencyGraph`.
  - Its fields are updated in place by `Update`, `AddModuleFile`,
    `GetOthersInModule`, `GetDependencies` and `GetReverseDependencies`.
  - Each of these methods keeps `Valid()` and states its new state through
    the functions above.
  - The ancestor walk and the accumulation loop of the two `get_*dependencies`
    methods are methods with loops of their own, proved against
    `NearestRegistered` and `UnionOver`.
- `dependency_examples.dfy`: module `DependencyExamples`, concrete scenarios.
  They cover nearest-ancestor filing, pseudo-nodes, wildcard keys, and the
  union of two targets.

Behaviours of the class that a reader might not expect, all modelled as the
code has them:

- `get_others_in_module`, `get_dependencies` and `get_reverse_dependencies`
  index the `defaultdict` directly, so reading a missing name stores an empty
  entry. After `get_dependencies`, that name counts for `key in graph` and
  shows up in `items()` (`ReadCreatesMembership`).
- Membership is "has an entry in the forward map". This includes a key passed
  to `update` with an empty set of values (`UpdateForward`).
- Filing is not retroactive. `add_module_file` files none of the targets
  already stored, so a containment entry is not always "exactly the targets
  whose nearest registered ancestor is this module"
  (`ModuleFileNotRetroactive`).

## Model

| member | source | states |
|---|---|---|
| DottedNames.StartsWith | mypy/dependency_graphs.py:42 | `s.startswith(prefix)` holds exactly when `s` is `prefix` followed by the rest of `s` |
| DottedNames.RSplitDot | mypy/dependency_graphs.py:45 | the head, a dot and the tail rebuild the name, and the tail holds no dot |
| DottedNames.RSplitDotUnique | mypy/dependency_graphs.py:45 | a name with a dot splits in exactly one way into a head, the dot and a dot-free tail |
| DottedNames.Parent | mypy/dependency_graphs.py:45 | each step of the walk makes the name strictly shorter, so the walk ends |
| DottedNames.ParentIsLongestAncestor | mypy/dependency_graphs.py:44-45 | the parent is a dotted ancestor of the name, and no dotted ancestor is longer |
| DottedNames.AncestorsThroughParent | mypy/dependency_graphs.py:44-49 | the dotted ancestors of a name are its parent plus the dotted ancestors of the parent |
| DottedNames.NearestRegistered | mypy/dependency_graphs.py:43-49 | the walk up the dotted ancestors; what it returns is a registered module strictly shorter than the name |
| DottedNames.NearestRegisteredIsNearest | mypy/dependency_graphs.py:43-49 | the walk returns a registered dotted ancestor that no other registered dotted ancestor is longer than; it returns nothing exactly when no dotted ancestor is registered |
| DottedNames.NearestRegisteredIff | mypy/dependency_graphs.py:43-49 | the walk returns `p` if and only if `p` is the nearest registered dotted ancestor |
| DottedNames.RemoveAll | mypy/dependency_graphs.py:50 | removing a pattern never lengthens the string and leaves a string without an occurrence unchanged |
| DottedNames.RemoveAllRemoves | mypy/dependency_graphs.py:50 | when the pattern occurs anywhere in the string, the result is shorter by at least the pattern's length |
| DottedNames.StripWildcard | mypy/dependency_graphs.py:50 | `key.replace("[wildcard]", "")` never lengthens the key and leaves a key without the marker unchanged |
| DottedNames.StripWildcardSuffix | mypy/dependency_graphs.py:50 | a marker-free name followed by `[wildcard]` strips back to that name |
| DependencyState.Lookup | mypy/dependency_graphs.py:11-13 | reading a `defaultdict(set)`: the stored set, or the empty set for a missing key |
| DependencyState.Find | mypy/dependency_graphs.py:29-33 | `dict.get`: the stored set when the key is present, the default otherwise |
| DependencyState.Vivified | mypy/dependency_graphs.py:11-13 | reading `defaultdict` entries adds exactly the read names as keys, and every stored or looked-up set stays what it was |
| DependencyState.Owner | mypy/dependency_graphs.py:42-49 | the module a target is filed under, if any: a registered module strictly shorter than the target, and never one for a target starting with `<` |
| DependencyState.OwnerIsNearest | mypy/dependency_graphs.py:42-49 | a target is filed under its nearest registered dotted ancestor; it is filed nowhere exactly when no module file is registered, it starts with `<`, or no dotted ancestor is registered |
| DependencyState.AddEdges | mypy/dependency_graphs.py:40 | `self._deps[key].update(values)`: the keys become the old keys plus `key`, the key's set holds the values, no set shrinks, and every other key keeps its set |
| DependencyState.AddReverse | mypy/dependency_graphs.py:50 | the reverse keys become the old keys plus the targets, each target's set holds the source, no set shrinks, and every non-target keeps its set |
| DependencyState.AddContainment | mypy/dependency_graphs.py:41-49 | filing targets never removes a module's entry or any element of it |
| DependencyState.Updated | mypy/dependency_graphs.py:38-50 | the state after `update(key, values)`: nothing stored is lost, the module files do not change, and the key's forward set holds the values |
| DependencyState.UpdateForward | mypy/dependency_graphs.py:40 | `update` makes the key's forward set its old set plus the values, even for empty values, and changes no other key |
| DependencyState.UpdateReverse | mypy/dependency_graphs.py:50 | each target's reverse set gains the wildcard-stripped key; the reverse sets of non-targets keep their membership and contents |
| DependencyState.UpdateContainment | mypy/dependency_graphs.py:41-49 | a target lands in its owner's containment entry, and every other module's entry neither gains nor loses it |
| DependencyState.UpdateContainmentGains | mypy/dependency_graphs.py:41-49 | anything a containment entry gains is a target of this update owned by that module |
| DependencyState.UpdateContainmentUntouched | mypy/dependency_graphs.py:42 | no containment entry changes when no module file is registered, when every target is a pseudo-node, or when no target has a registered ancestor |
| DependencyState.AddReverseIdempotent | mypy/dependency_graphs.py:50 | adding the same reverse edges twice is the same as adding them once |
| DependencyState.AddContainmentIdempotent | mypy/dependency_graphs.py:41-49 | filing the same targets twice is the same as filing them once |
| DependencyState.UpdateIdempotent | mypy/dependency_graphs.py:38-50 | repeating `update(key, values)` leaves the graph as one call left it |
| DependencyState.UpdateMirrors | mypy/dependency_graphs.py:40-50 | `update` keeps "every forward edge has its reverse edge" |
| DependencyState.UpdateReflects | mypy/dependency_graphs.py:40-50 | `update` keeps "every reverse edge comes from a forward edge" |
| DependencyState.UpdateContainmentSound | mypy/dependency_graphs.py:40-49 | `update` keeps "every containment entry files a non-pseudo target under a registered dotted ancestor" |
| DependencyState.UpdateConsistent | mypy/dependency_graphs.py:38-50 | `update` keeps the whole invariant `Consistent` |
| DependencyState.WithModuleFile | mypy/dependency_graphs.py:35-36 | `add_module_file(module)`: the name joins the module files, which only grow, and the three maps are left exactly as they were |
| DependencyState.WithModuleFileConsistent | mypy/dependency_graphs.py:35-36 | registering a module file keeps `Consistent`, and registering it twice is the same as once |
| DependencyState.ModuleFileNotRetroactive | mypy/dependency_graphs.py:35-49 | with module files `{"x"}` and target `a.b`: registering `a` after `update` leaves `a`'s entry empty, while registering `a` before `update` files `a.b` under it |
| DependencyState.Build | mypy/dependency_graphs.py:14-17 | the state after construction: one `update` per entry of the dependency map, in order, with the given module files kept |
| DependencyState.BuildKeys | mypy/dependency_graphs.py:15-17 | after construction, the forward keys are exactly the keys of the dependency map, and the module files are the given ones |
| DependencyState.FindAfterBuild | mypy/dependency_graphs.py:15-17 | after construction, `get` finds a set exactly for the keys of the dependency map |
| DependencyState.BuildConsistent | mypy/dependency_graphs.py:6-17 | a freshly constructed graph satisfies `Consistent` |
| DependencyState.UnionOver | mypy/dependency_graphs.py:58-68 | the union that `result \|= index[target]` accumulates over the targets in order, a missing target counting as empty; its contents are stated by `UnionOverMembers` |
| DependencyState.UnionOverMembers | mypy/dependency_graphs.py:58-68 | the accumulated union holds exactly the elements stored under some target |
| DependencyState.VivifiedDepsConsistent | mypy/dependency_graphs.py:58-62 | the empty forward entries stored by `get_dependencies` keep `Consistent`, and nothing stored is lost |
| DependencyState.VivifiedReverseConsistent | mypy/dependency_graphs.py:64-68 | the empty reverse entries stored by `get_reverse_dependencies` keep `Consistent`, and nothing stored is lost |
| DependencyState.VivifiedContainmentConsistent | mypy/dependency_graphs.py:55-56 | the empty containment entry stored by `get_others_in_module` keeps `Consistent`, and nothing stored is lost |
| DependencyState.ReadCreatesMembership | mypy/dependency_graphs.py:58-62 | reading a missing target through `get_dependencies` stores it as a forward key with an empty set |
| DependencyGraphs.FindRegisteredAncestor | mypy/dependency_graphs.py:43-49 | the loop that strips one segment at a time returns exactly the nearest registered ancestor found by the walk |
| DependencyGraphs.CollectFrom | mypy/dependency_graphs.py:58-68 | the loop's result is the union of the targets' sets, holds exactly the elements stored under some target, and leaves the index with every target stored |
| DependencyGraphs.DependencyGraph.constructor | mypy/dependency_graphs.py:6-17 | an empty graph with the given module files, updated with each entry of the dependency map in order; `Valid` holds |
| DependencyGraphs.DependencyGraph.Contains | mypy/dependency_graphs.py:26-27 | `key in graph` holds exactly when `get(key)` finds a stored set |
| DependencyGraphs.DependencyGraph.Get | mypy/dependency_graphs.py:29-30 | the stored forward set, or the default when the key is absent; stores nothing |
| DependencyGraphs.DependencyGraph.GetReverse | mypy/dependency_graphs.py:32-33 | the stored reverse set, or the default when the name is absent; stores nothing |
| DependencyGraphs.DependencyGraph.Items | mypy/dependency_graphs.py:52-53 | the pairs are exactly the stored (key, forward set) pairs |
| DependencyGraphs.DependencyGraph.AddModuleFile | mypy/dependency_graphs.py:35-36 | adds the name to the module files, changes nothing else, and keeps `Valid` |
| DependencyGraphs.DependencyGraph.Update | mypy/dependency_graphs.py:38-50 | the new state is `Updated(old state, key, values)`, and `Valid` is kept |
| DependencyGraphs.DependencyGraph.GetOthersInModule | mypy/dependency_graphs.py:55-56 | returns the module's containment entry (empty if none), stores an empty entry when it was missing, and keeps `Valid` |
| DependencyGraphs.DependencyGraph.GetDependencies | mypy/dependency_graphs.py:58-62 | the result holds exactly the elements of some target's forward set; every target becomes a forward key; `Valid` is kept |
| DependencyGraphs.DependencyGraph.GetReverseDependencies | mypy/dependency_graphs.py:64-68 | the result holds exactly the elements of some target's reverse set; every target becomes a reverse key; `Valid` is kept |
| DependencyExamples.NearestModuleReceivesTarget | mypy/dependency_graphs.py:43-49 | with modules `a` and `a.b`, target `a.b.c.d` is filed under `a.b` and not under `a` |
| DependencyExamples.PseudoNodeNotContained | mypy/dependency_graphs.py:42-50 | `update("x", {"<builtins>"})` gives `<builtins>` the reverse edge `x` and creates no containment entry |
| DependencyExamples.PseudoNodeGuardDecides | mypy/dependency_graphs.py:42-49 | with module files `{"<a"}`, the walk alone would file `<a.b` under `<a`, but `update("x", {"<a.b"})` leaves the containment index empty because of the `<` guard |
| DependencyExamples.WildcardKeyStripped | mypy/dependency_graphs.py:50 | `update("m[wildcard]", {"t"})` records `m`, not `m[wildcard]`, as a reverse dependency of `t` |
| DependencyExamples.DependenciesOfTwo | mypy/dependency_graphs.py:58-62 | `get_dependencies(["p", "q"])` is `get("p") \| get("q")`, a missing key counting as empty |

## Left out

- `__get__` (mypy/dependency_graphs.py:23-24) is left out. Its signature does not match the descriptor protocol, nothing in the module calls it, and its effect, an auto-vivifying read of the forward map, is the one `GetDependencies` already models.
- The commented-out `__set__` and `_update_reverse_deps` (mypy/dependency_graphs.py:70-77) are dead code.
- The random dependency-graph generator (`ball_of_mud`) and its test are not part of this model. They do file I/O and use randomness.
- Iteration order is not modelled:
  - the result of `items()` is a set of pairs rather than an ordered view;
  - `update` takes the elements of `values` in an arbitrary order (the model's loop picks any remaining element), and the proved final state does not depend on that order.
- The `dependency_map` dict is modelled as the sequence of its entries in insertion order. The model also admits repeated keys, which a dict cannot have.
- Aliasing is not modelled. The source stores the caller's `module_files` set itself (`module_files or set()`), and the sets returned by `get`, `get_reverse`, `get_others_in_module` and `items()` are live. A caller mutating any of these would change the graph. The model copies values.
- DependencyGraphs.DependencyGraph.ModuleFiles: the `module_files` property returns the field; it carries no contract beyond that.
- DependencyGraphs.DependencyGraph.Get: `default` is typed `Any` in the source; the model restricts it to "no value" or a set (`Option<set<string>>`).
- The `targets` iterable of `get_dependencies` and `get_reverse_dependencies` is modelled as a finite sequence. A one-shot or infinite iterator is not modelled.
- Strings are sequences of characters. Python's `str` methods used here (`startswith`, `rsplit`, `replace`, `in`) are written out over that representation.
