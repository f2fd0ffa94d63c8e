/** The members of a taxonomy deck: everything a node of the classification contains,
    at any depth, as far as the learnable pool carries it. */
module Taxonomy {
  import opened Types
  import opened Sorting
  import opened Reachability

  datatype Relation = Relation(parentKey: string, childKey: string, taxonomyKey: string, relationType: string)

  const CONTAINS: string := "contains"

  ghost function Contains(relations: seq<Relation>): Edges {
    (a, b) => exists r :: r in relations && r.relationType == "contains" && r.parentKey == a && r.childKey == b
  }

  /** The entities a taxonomy deck stands for. */
  ghost predicate Belongs(relations: seq<Relation>, root: string, learnable: seq<string>, key: string) {
    key != root && key in learnable && Reaches(Contains(relations), root, key)
  }

  type Children = map<string, seq<string>>

  ghost predicate Listed(children: Children, a: string, b: string) {
    a in children && b in children[a]
  }

  ghost predicate Lists(children: Children, relations: seq<Relation>) {
    && (forall a, b :: Listed(children, a, b) <==> Contains(relations)(a, b))
    && (forall a :: a in children ==> children[a] != [])
  }

  method ChildrenByParent(relations: seq<Relation>) returns (children: Children)
    ensures Lists(children, relations)
  {
    children := map[];
    for n := 0 to |relations|
      invariant Lists(children, relations[..n])
    {
      var r := relations[n];
      assert relations[..n + 1] == relations[..n] + [r];
      ghost var before := children;
      if r.relationType == CONTAINS {
        var siblings := if r.parentKey in children then children[r.parentKey] else [];
        children := children[r.parentKey := siblings + [r.childKey]];
      }
      forall a, b ensures Listed(children, a, b) <==> Contains(relations[..n + 1])(a, b) {
        assert Listed(before, a, b) <==> Contains(relations[..n])(a, b);
        ContainsOneMore(relations[..n], r, a, b);
      }
    }
    assert relations[..|relations|] == relations;
  }

  lemma ContainsOneMore(relations: seq<Relation>, r: Relation, a: string, b: string)
    ensures Contains(relations + [r])(a, b) <==>
              Contains(relations)(a, b) || (r.relationType == CONTAINS && r.parentKey == a && r.childKey == b)
  {
    assert r in relations + [r];
  }

  datatype DeckError = ContainsNothing | HoldsNothing

  ghost function Keys(root: string, relations: seq<Relation>): set<string> {
    {root} + set i | 0 <= i < |relations| :: relations[i].childKey
  }

  /** What the walk knows: only reached keys are met, and a key once seen has its
      children seen or waiting. */
  ghost predicate Walked(relations: seq<Relation>, root: string, seen: set<string>, queue: seq<string>) {
    && (root in seen || root in queue)
    && (forall k :: k in seen || k in queue ==> k in Keys(root, relations) && Reaches(Contains(relations), root, k))
    && (forall a, b :: a in seen && Contains(relations)(a, b) ==> b in seen || b in queue)
  }

  ghost predicate Collected(members: seq<string>, root: string, learnable: seq<string>, seen: set<string>) {
    Distinct(members) && forall k :: k in members <==> k in seen && k != root && k in learnable
  }

  /** The breadth-first walk, on any relations: cycles and shared children included. */
  method Walk(root: string, learnable: seq<string>, children: Children, ghost relations: seq<Relation>)
    returns (members: seq<string>)
    requires Lists(children, relations)
    ensures forall k :: k in members <==> Belongs(relations, root, learnable, k)
    ensures Distinct(members)
  {
    members := [];
    var seen: set<string> := {};
    var queue := [root];
    ReachesSelf(Contains(relations), root);
    while queue != []
      invariant Walked(relations, root, seen, queue)
      invariant Collected(members, root, learnable, seen)
      decreases |Keys(root, relations) - seen|, |queue|
    {
      var key := queue[0];
      if key in seen {
        WalkedSkip(relations, root, seen, queue);
        queue := queue[1..];
        continue;
      }
      var next := if key in children then children[key] else [];
      WalkedOn(relations, root, seen, queue, children, next);
      CollectedOn(members, root, learnable, seen, key);
      if key != root && key in learnable {
        members := members + [key];
      }
      seen := seen + {key};
      queue := queue[1..] + next;
    }
    WalkedAll(relations, root, seen);
  }

  lemma WalkedSkip(relations: seq<Relation>, root: string, seen: set<string>, queue: seq<string>)
    requires Walked(relations, root, seen, queue) && queue != [] && queue[0] in seen
    ensures Walked(relations, root, seen, queue[1..])
  {
    assert queue == [queue[0]] + queue[1..];
  }

  lemma OneFewer(keys: set<string>, seen: set<string>, key: string)
    requires key in keys && key !in seen
    ensures |keys - (seen + {key})| < |keys - seen|
  {
    assert keys - (seen + {key}) == (keys - seen) - {key};
  }

  lemma {:induction false} WalkedOn(relations: seq<Relation>, root: string, seen: set<string>, queue: seq<string>,
                 children: Children, next: seq<string>)
    requires Lists(children, relations) && Walked(relations, root, seen, queue)
    requires queue != [] && queue[0] !in seen
    requires next == if queue[0] in children then children[queue[0]] else []
    ensures Walked(relations, root, seen + {queue[0]}, queue[1..] + next)
    ensures |Keys(root, relations) - (seen + {queue[0]})| < |Keys(root, relations) - seen|
  {
    var key := queue[0];
    assert queue == [key] + queue[1..];
    OneFewer(Keys(root, relations), seen, key);
    forall b ensures b in next <==> Contains(relations)(key, b) {
      assert Listed(children, key, b) <==> Contains(relations)(key, b);
    }
    forall b | b in next ensures b in Keys(root, relations) && Reaches(Contains(relations), root, b) {
      ReachesFurther(Contains(relations), root, key, b);
      var r :| r in relations && r.childKey == b;
      var i :| 0 <= i < |relations| && relations[i] == r;
    }
  }

  lemma CollectedOn(members: seq<string>, root: string, learnable: seq<string>, seen: set<string>, key: string)
    requires Collected(members, root, learnable, seen) && key !in seen
    ensures Collected(if key != root && key in learnable then members + [key] else members,
                      root, learnable, seen + {key})
  {
    assert key !in members;
    assert forall k :: k in members + [key] <==> k in members || k == key;
  }

  lemma WalkedAll(relations: seq<Relation>, root: string, seen: set<string>)
    requires Walked(relations, root, seen, [])
    ensures forall k :: k in seen <==> Reaches(Contains(relations), root, k)
  {
    forall k | Reaches(Contains(relations), root, k) ensures k in seen {
      var p :| Joins(Contains(relations), p, root, k);
      ClosedHoldsPath(Contains(relations), seen, p);
    }
  }

  method DeckMembers(root: string, learnable: seq<string>, relations: seq<Relation>)
    returns (r: Result<seq<string>, DeckError>)
    ensures r == Err(ContainsNothing) <==> !exists b :: Contains(relations)(root, b)
    ensures r == Err(HoldsNothing) <==>
              (exists b :: Contains(relations)(root, b)) && !exists k :: Belongs(relations, root, learnable, k)
    ensures r.Ok? ==>
              && (forall k :: k in r.value <==> Belongs(relations, root, learnable, k))
              && Sorted(r.value, TextLeq) && Distinct(r.value)
  {
    var children := ChildrenByParent(relations);
    if root !in children {
      forall b ensures !Contains(relations)(root, b) { assert !Listed(children, root, b); }
      return Err(ContainsNothing);
    }
    assert Listed(children, root, children[root][0]);
    var members := Walk(root, learnable, children, relations);
    if members == [] {
      return Err(HoldsNothing);
    }
    assert Belongs(relations, root, learnable, members[0]);
    TextOrder();
    SortSorted(members, TextLeq);
    SortMembers(members, TextLeq);
    SortDistinct(members, TextLeq);
    return Ok(Sort(members, TextLeq));
  }

  /** A node without children has no members. */
  lemma MembersNeedChildren(relations: seq<Relation>, root: string, learnable: seq<string>)
    ensures (exists k :: Belongs(relations, root, learnable, k)) ==> exists b :: Contains(relations)(root, b)
  {
    if k :| Belongs(relations, root, learnable, k) {
      var p :| Joins(Contains(relations), p, root, k);
      assert Contains(relations)(p[0], p[0 + 1]);
    }
  }
}
