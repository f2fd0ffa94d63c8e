/** The containment search of the CLDR adapter: from the world down to a territory
    through data that may contain cycles. */
module Containment {
  import opened Types
  import opened Sorting
  import opened Reachability

  /** The codes whose `_contains` is an array, with that array. */
  type Groups = map<string, seq<Json>>

  ghost function Contains(groups: Groups): Edges {
    (a, b) => a in groups && Str(b) in groups[a]
  }

  /** Backtracking search. Each branch works on its own copy of `visited`, and the search
      still misses nothing: it fails only when every way to the target meets `visited`. */
  method FindPath(groups: Groups, parent: string, target: string, visited: set<string>)
    returns (path: Option<seq<string>>)
    ensures path.Some? <==> ReachesAvoiding(Contains(groups), parent, target, visited)
    ensures path.Some? ==> JoinsAvoiding(Contains(groups), path.value, parent, target, visited)
    ensures path.Some? ==> Distinct(path.value[..|path.value| - 1])
    ensures path.Some? && parent in groups && Str(target) in groups[parent] ==> path.value == [parent, target]
    ensures path.Some? && |path.value| > 2 ==> TakesFirstBranch(groups, parent, target, visited, path.value[1])
    decreases |groups.Keys - visited|
  {
    ghost var edge := Contains(groups);
    if parent in visited {
      return None;
    }
    var seen := visited + {parent};
    if parent !in groups {
      forall p ensures !JoinsAvoiding(edge, p, parent, target, visited) {
        if |p| >= 2 && p[0] == parent { assert !edge(p[0], p[0 + 1]); }
      }
      return None;
    }
    var children := groups[parent];
    if Str(target) in children {
      assert JoinsAvoiding(edge, [parent, target], parent, target, visited);
      return Some([parent, target]);
    }
    FewerLeft(groups.Keys, visited, parent);
    for n := 0 to |children|
      invariant forall m :: 0 <= m < n && children[m].Str? ==> !ReachesAvoiding(edge, children[m].s, target, seen)
    {
      if !children[n].Str? { continue; }
      var rest := FindPath(groups, children[n].s, target, seen);
      if rest.Some? {
        Prepend(edge, parent, rest.value, target, visited);
        return Some([parent] + rest.value);
      }
    }
    if ReachesAvoiding(edge, parent, target, visited) {
      SomeBranchWorks(groups, parent, target, visited);
      assert false;
    }
    return None;
  }

  lemma SomeBranchWorks(groups: Groups, parent: string, target: string, visited: set<string>)
    requires ReachesAvoiding(Contains(groups), parent, target, visited)
    requires parent in groups && Str(target) !in groups[parent]
    ensures exists m :: 0 <= m < |groups[parent]| && groups[parent][m].Str?
              && ReachesAvoiding(Contains(groups), groups[parent][m].s, target, visited + {parent})
  {
    var edge := Contains(groups);
    var p :| JoinsAvoiding(edge, p, parent, target, visited);
    LeaveForGood(edge, p, parent, target, visited);
    var c :| edge(parent, c) && ReachesAvoiding(edge, c, target, visited + {parent});
    var m :| 0 <= m < |groups[parent]| && groups[parent][m] == Str(c);
  }

  /** The path goes on through the first listed child from which the target can be reached
      without coming back. */
  ghost predicate TakesFirstBranch(groups: Groups, parent: string, target: string, visited: set<string>, next: string) {
    && parent in groups
    && exists n ::
         && 0 <= n < |groups[parent]|
         && groups[parent][n] == Str(next)
         && forall m :: 0 <= m < n && groups[parent][m].Str? ==>
              !ReachesAvoiding(Contains(groups), groups[parent][m].s, target, visited + {parent})
  }

  lemma FewerLeft(keys: set<string>, visited: set<string>, key: string)
    requires key in keys && key !in visited
    ensures |keys - (visited + {key})| < |keys - visited|
  {
    assert keys - (visited + {key}) == (keys - visited) - {key};
  }

  lemma Prepend(edge: Edges, parent: string, rest: seq<string>, target: string, visited: set<string>)
    requires rest != [] && edge(parent, rest[0]) && parent !in visited
    requires JoinsAvoiding(edge, rest, rest[0], target, visited + {parent})
    requires Distinct(rest[..|rest| - 1])
    ensures JoinsAvoiding(edge, [parent] + rest, parent, target, visited)
    ensures Distinct(([parent] + rest)[..|rest|])
  {
    var p := [parent] + rest;
    assert p[..|rest|] == [parent] + rest[..|rest| - 1];
    forall i | 0 <= i < |p| - 1 ensures edge(p[i], p[i + 1]) && p[i] !in visited {
      if i > 0 { assert edge(rest[i - 1], rest[i]); }
    }
  }

  const WORLD: string := "001"

  datatype Place = Place(isoAlpha2: string, region: string, subregion: string)

  /** Region and subregion of a territory: the second and the last but one code on the
      way down from the world. */
  method Locate(groups: Groups, isoAlpha2: string) returns (place: Option<Place>)
    ensures place.None? <==>
              !ReachesAvoiding(Contains(groups), WORLD, isoAlpha2, {}) || Contains(groups)(WORLD, isoAlpha2)
    ensures place.Some? ==>
              && place.value.isoAlpha2 == isoAlpha2
              && Contains(groups)(WORLD, place.value.region)
              && Reaches(Contains(groups), place.value.region, place.value.subregion)
              && Contains(groups)(place.value.subregion, isoAlpha2)
  {
    ghost var edge := Contains(groups);
    var path := FindPath(groups, WORLD, isoAlpha2, {});
    if path.None? || |path.value| < 3 {
      if path.Some? { assert edge(path.value[0], path.value[1]); }
      return None;
    }
    var p := path.value;
    assert edge(p[0], p[1]) && edge(p[|p| - 2], p[|p| - 2 + 1]);
    assert Joins(edge, p[1..|p| - 1], p[1], p[|p| - 2]);
    return Some(Place(isoAlpha2, p[1], p[|p| - 2]));
  }
}
