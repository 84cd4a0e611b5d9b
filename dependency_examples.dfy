/**
 * Concrete runs of the dependency graph: the scenarios that describe how
 * containment, pseudo-nodes and wildcard keys behave.
 */
module DependencyExamples {
  import opened Options
  import opened DottedNames
  import opened DependencyState

  lemma NoMarkerIn(s: string)
    requires |s| < |WildcardMarker|
    ensures !Occurs(WildcardMarker, s)
  {
  }

  /**
   * With module files `a` and `a.b`, a dependency on `a.b.c.d` is filed under
   * `a.b`, its nearest registered ancestor, and not under `a`.
   */
  lemma NearestModuleReceivesTarget()
    ensures var g := Updated(Empty({"a", "a.b"}), "x", {"a.b.c.d"});
      && "a.b.c.d" in Lookup(g.parentModules, "a.b")
      && "a.b.c.d" !in Lookup(g.parentModules, "a")
  {
    var modules := {"a", "a.b"};
    RSplitDotUnique("a.b.c.d", "a.b.c", "d");
    RSplitDotUnique("a.b.c", "a.b", "c");
    assert "a.b.c" !in modules;
    assert NearestRegistered("a.b.c.d", modules) == Some("a.b");
    assert !StartsWith("a.b.c.d", "<") by {
      assert "a.b.c.d"[..1][0] != "<"[0];
    }
    assert Owner("a.b.c.d", modules) == Some("a.b");
    var e := Empty(modules);
    UpdateContainment(e, "x", {"a.b.c.d"}, "a.b.c.d", "a.b");
    UpdateContainment(e, "x", {"a.b.c.d"}, "a.b.c.d", "a");
  }

  /** A pseudo-node target gets a reverse edge but no containment entry. */
  lemma PseudoNodeNotContained()
    ensures var g := Updated(Empty({"builtins"}), "x", {"<builtins>"});
      && g.parentModules == map[]
      && Lookup(g.reverseDeps, "<builtins>") == {"x"}
  {
    var e := Empty({"builtins"});
    assert StartsWith("<builtins>", "<");
    UpdateContainmentUntouched(e, "x", {"<builtins>"});
    NoMarkerIn("x");
    UpdateReverse(e, "x", {"<builtins>"});
  }

  /**
   * The `<` guard, not the walk, keeps a pseudo-node out of containment: the
   * walk alone would file `<a.b` under the registered `<a`, yet `update`
   * leaves the containment index empty.
   */
  lemma PseudoNodeGuardDecides()
    ensures NearestRegistered("<a.b", {"<a"}) == Some("<a")
    ensures Updated(Empty({"<a"}), "x", {"<a.b"}).parentModules == map[]
  {
    RSplitDotUnique("<a.b", "<a", "b");
    assert StartsWith("<a.b", "<");
    UpdateContainmentUntouched(Empty({"<a"}), "x", {"<a.b"});
  }

  /** A wildcard key is recorded in the reverse map without its marker. */
  lemma WildcardKeyStripped()
    ensures var g := Updated(Empty({}), "m[wildcard]", {"t"});
      && "m" in Lookup(g.reverseDeps, "t")
      && "m[wildcard]" !in Lookup(g.reverseDeps, "t")
  {
    NoMarkerIn("m");
    StripWildcardSuffix("m");
    assert "m" + WildcardMarker == "m[wildcard]" by {
      var s := "m" + WildcardMarker;
      assert |s| == |"m[wildcard]"|;
      forall i | 0 <= i < |s| ensures s[i] == "m[wildcard]"[i] {
      }
    }
    UpdateReverse(Empty({}), "m[wildcard]", {"t"});
  }

  /** `get_dependencies(["p", "q"])` is `get("p") | get("q")`, a missing key counting as empty. */
  lemma DependenciesOfTwo(m: Index)
    ensures UnionOver(m, ["p", "q"]) == Lookup(m, "p") + Lookup(m, "q")
  {
    assert ["p", "q"][..1] == ["p"];
    assert ["p"][..0] == [];
    assert UnionOver(m, ["p"]) == Lookup(m, "p");
  }
}
