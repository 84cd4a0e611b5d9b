module Options {
  datatype Option<+T> = None | Some(value: T)
}

/**
 * The string routines the dependency graph relies on: `s.startswith(prefix)`,
 * `s.rsplit(".", 1)`, the walk from a dotted name up through its ancestors,
 * and `s.replace(pattern, "")`.
 */
module DottedNames {
  import opened Options

  /** `s.startswith(prefix)`. */
  predicate StartsWith(s: string, prefix: string)
    ensures StartsWith(s, prefix) <==> |prefix| <= |s| && s == prefix + s[|prefix|..]
  {
    |prefix| <= |s| && s[..|prefix|] == prefix
  }

  /** Index of the last '.' in `s`. */
  function LastDot(s: string): (i: nat)
    requires '.' in s
    ensures i < |s| && s[i] == '.'
    ensures forall j :: i < j < |s| ==> s[j] != '.'
  {
    if s[|s| - 1] == '.' then
      |s| - 1
    else
      assert s == s[..|s| - 1] + [s[|s| - 1]];
      LastDot(s[..|s| - 1])
  }

  /** `s.rsplit(".", 1)` on a string that contains a dot: the text before the last dot and the text after it. */
  function RSplitDot(s: string): (r: (string, string))
    requires '.' in s
    ensures r.0 + "." + r.1 == s
    ensures '.' !in r.1
  {
    var i := LastDot(s);
    assert s == s[..i] + "." + s[i + 1..];
    var tail := s[i + 1..];
    forall k | 0 <= k < |tail| ensures tail[k] != '.' {
      assert tail[k] == s[i + 1 + k];
    }
    (s[..i], s[i + 1..])
  }

  /** A string with a dot splits in exactly one way into a head, the dot, and a dot-free tail. */
  lemma RSplitDotUnique(s: string, head: string, tail: string)
    requires head + "." + tail == s
    requires '.' !in tail
    ensures '.' in s
    ensures RSplitDot(s) == (head, tail)
  {
    assert s[|head|] == '.';
    var i := LastDot(s);
    assert forall j :: |head| < j < |s| ==> s[j] == tail[j - |head| - 1];
    assert i == |head|;
    assert s[..i] == head;
    assert s[i + 1..] == tail;
  }

  /** `a` is a proper dotted prefix of `v`: `v` starts with `a + "."`. */
  predicate IsDottedAncestor(a: string, v: string) {
    |a| < |v| && v[..|a|] == a && v[|a|] == '.'
  }

  /** `cur.rsplit(".", 1)[0]`. */
  function Parent(s: string): (p: string)
    requires '.' in s
    ensures |p| < |s|
  {
    RSplitDot(s).0
  }

  /** The parent of `s` is its longest dotted ancestor. */
  lemma ParentIsLongestAncestor(s: string)
    requires '.' in s
    ensures IsDottedAncestor(Parent(s), s)
    ensures forall a :: IsDottedAncestor(a, s) ==> |a| <= |Parent(s)|
  {
    var i := LastDot(s);
    assert Parent(s) == s[..i];
  }

  /** The dotted ancestors of `v` are its parent and the dotted ancestors of its parent. */
  lemma AncestorsThroughParent(v: string, a: string)
    requires '.' in v
    ensures IsDottedAncestor(a, v) <==> a == Parent(v) || IsDottedAncestor(a, Parent(v))
  {
    var p := Parent(v);
    ParentIsLongestAncestor(v);
    if IsDottedAncestor(a, v) && a != p {
      assert p == v[..|p|];
      assert |a| < |p|;
      assert p[..|a|] == v[..|a|];
    }
    if IsDottedAncestor(a, p) {
      assert p == v[..|p|];
      assert v[..|a|] == p[..|a|];
    }
  }

  /**
   * The ancestor walk of `update`: strip the last dotted segment until a
   * registered module is reached or no dot is left.
   */
  function NearestRegistered(v: string, modules: set<string>): (r: Option<string>)
    ensures r.Some? ==> r.value in modules && |r.value| < |v|
    decreases |v|
  {
    if '.' !in v then
      None
    else
      var p := Parent(v);
      if p in modules then Some(p) else NearestRegistered(p, modules)
  }

  /** `p` is the longest dotted ancestor of `v` that is in `modules`. */
  ghost predicate IsNearestRegistered(p: string, v: string, modules: set<string>) {
    && p in modules
    && IsDottedAncestor(p, v)
    && forall a :: a in modules && IsDottedAncestor(a, v) ==> |a| <= |p|
  }

  /** The walk finds the nearest registered ancestor, and finds nothing exactly when there is none. */
  lemma {:induction false} NearestRegisteredIsNearest(v: string, modules: set<string>)
    ensures NearestRegistered(v, modules).Some? ==>
              IsNearestRegistered(NearestRegistered(v, modules).value, v, modules)
    ensures NearestRegistered(v, modules).None? <==>
              forall a :: IsDottedAncestor(a, v) ==> a !in modules
    decreases |v|
  {
    if '.' !in v {
      forall a ensures !IsDottedAncestor(a, v) {
        if |a| < |v| {
          assert v[|a|] in v;
        }
      }
    } else {
      var p := Parent(v);
      ParentIsLongestAncestor(v);
      forall a ensures IsDottedAncestor(a, v) <==> a == p || IsDottedAncestor(a, p) {
        AncestorsThroughParent(v, a);
      }
      if p !in modules {
        NearestRegisteredIsNearest(p, modules);
      }
    }
  }

  /** Two dotted ancestors of the same length are the same string. */
  lemma NearestRegisteredUnique(p: string, q: string, v: string, modules: set<string>)
    requires IsNearestRegistered(p, v, modules) && IsNearestRegistered(q, v, modules)
    ensures p == q
  {
    assert |p| == |q|;
    assert p == v[..|p|] && q == v[..|q|];
  }

  /** The walk returns `p` if and only if `p` is the nearest registered ancestor of `v`. */
  lemma NearestRegisteredIff(v: string, modules: set<string>, p: string)
    ensures NearestRegistered(v, modules) == Some(p) <==> IsNearestRegistered(p, v, modules)
  {
    NearestRegisteredIsNearest(v, modules);
    var r := NearestRegistered(v, modules);
    if IsNearestRegistered(p, v, modules) {
      assert r.Some?;
      NearestRegisteredUnique(p, r.value, v, modules);
    }
  }

  /** `pattern` occurs in `s` starting at index `i`. */
  predicate OccursAt(pattern: string, s: string, i: nat) {
    i + |pattern| <= |s| && s[i..i + |pattern|] == pattern
  }

  ghost predicate Occurs(pattern: string, s: string) {
    exists i: nat :: OccursAt(pattern, s, i)
  }

  /**
   * `s.replace(pattern, "")`: scanning left to right, every occurrence of
   * `pattern` that does not overlap an earlier removed one is deleted.
   */
  function RemoveAll(s: string, pattern: string): (r: string)
    ensures |r| <= |s|
    ensures pattern != [] && !Occurs(pattern, s) ==> r == s
  {
    if pattern == [] || |s| < |pattern| then
      s
    else if s[..|pattern|] == pattern then
      assert OccursAt(pattern, s, 0);
      RemoveAll(s[|pattern|..], pattern)
    else
      assert forall i: nat :: OccursAt(pattern, s[1..], i) ==> OccursAt(pattern, s, i + 1) by {
        forall i: nat | OccursAt(pattern, s[1..], i) ensures OccursAt(pattern, s, i + 1) {
          assert s[1..][i..i + |pattern|] == s[i + 1..i + 1 + |pattern|];
        }
      }
      [s[0]] + RemoveAll(s[1..], pattern)
  }

  /** Each left-most occurrence that `replace` meets is deleted, so an occurrence anywhere shortens the string by at least the pattern. */
  lemma {:induction false} RemoveAllRemoves(s: string, pattern: string, i: nat)
    requires pattern != [] && OccursAt(pattern, s, i)
    ensures |RemoveAll(s, pattern)| <= |s| - |pattern|
    decreases i
  {
    if s[..|pattern|] != pattern {
      assert i > 0;
      assert s[1..][i - 1..i - 1 + |pattern|] == s[i..i + |pattern|];
      RemoveAllRemoves(s[1..], pattern, i - 1);
    }
  }

  /** The marker a wildcard import appends to a dependency key. */
  const WildcardMarker: string := "[wildcard]"

  /** `key.replace("[wildcard]", "")`. */
  function StripWildcard(key: string): (r: string)
    ensures |r| <= |key|
    ensures !Occurs(WildcardMarker, key) ==> r == key
  {
    RemoveAll(key, WildcardMarker)
  }

  /** A marker-free name followed by the marker does not start with the marker. */
  lemma MarkerNotAtStart(name: string)
    requires name != [] && !Occurs(WildcardMarker, name)
    ensures (name + WildcardMarker)[..|WildcardMarker|] != WildcardMarker
  {
    var s := name + WildcardMarker;
    var n := |WildcardMarker|;
    if |name| >= n {
      assert s[..n] == name[..n];
      assert !OccursAt(WildcardMarker, name, 0);
    } else {
      assert s[..n][|name|] == '[';
      assert WildcardMarker[|name|] != '[';
    }
  }

  /** Dropping the first character of a string cannot create an occurrence. */
  lemma NoOccurrenceInTail(pattern: string, s: string)
    requires s != [] && !Occurs(pattern, s)
    ensures !Occurs(pattern, s[1..])
  {
    forall i: nat | OccursAt(pattern, s[1..], i) ensures OccursAt(pattern, s, i + 1) {
      assert s[1..][i..i + |pattern|] == s[i + 1..i + 1 + |pattern|];
    }
  }

  /** A key that is a marker-free name followed by the marker strips back to that name. */
  lemma {:induction false} StripWildcardSuffix(name: string)
    requires !Occurs(WildcardMarker, name)
    ensures StripWildcard(name + WildcardMarker) == name
    decreases |name|
  {
    var s := name + WildcardMarker;
    if name == [] {
      assert s[..|WildcardMarker|] == WildcardMarker;
      assert s[|WildcardMarker|..] == [];
    } else {
      MarkerNotAtStart(name);
      NoOccurrenceInTail(WildcardMarker, name);
      StripWildcardSuffix(name[1..]);
      assert s[1..] == name[1..] + WildcardMarker;
      assert RemoveAll(s, WildcardMarker) == [name[0]] + RemoveAll(s[1..], WildcardMarker);
      assert name == [name[0]] + name[1..];
    }
  }
}
