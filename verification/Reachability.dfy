/** Paths in a directed graph given by its edges. */
module Reachability {

  type Edges = (string, string) -> bool

  ghost predicate IsPath(edge: Edges, p: seq<string>) {
    p != [] && forall i :: 0 <= i < |p| - 1 ==> edge(p[i], p[i + 1])
  }

  ghost predicate Joins(edge: Edges, p: seq<string>, a: string, b: string) {
    IsPath(edge, p) && p[0] == a && p[|p| - 1] == b
  }

  ghost predicate Reaches(edge: Edges, a: string, b: string) {
    exists p :: Joins(edge, p, a, b)
  }

  /** `p` leaves `a`, ends at `b` after at least one edge, and meets no key of `avoid`
      on the way; `b` itself may be one. */
  ghost predicate JoinsAvoiding(edge: Edges, p: seq<string>, a: string, b: string, avoid: set<string>) {
    Joins(edge, p, a, b) && |p| >= 2 && forall i :: 0 <= i < |p| - 1 ==> p[i] !in avoid
  }

  ghost predicate ReachesAvoiding(edge: Edges, a: string, b: string, avoid: set<string>) {
    exists p :: JoinsAvoiding(edge, p, a, b, avoid)
  }

  lemma ReachesSelf(edge: Edges, a: string)
    ensures Reaches(edge, a, a)
  {
    assert Joins(edge, [a], a, a);
  }

  lemma ReachesFurther(edge: Edges, a: string, b: string, c: string)
    requires Reaches(edge, a, b) && edge(b, c)
    ensures Reaches(edge, a, c)
  {
    var p :| Joins(edge, p, a, b);
    assert Joins(edge, p + [c], a, c);
  }

  /** A set that holds the start and is closed under edges holds all that is reached. */
  lemma {:induction false} ClosedHoldsPath(edge: Edges, s: set<string>, p: seq<string>)
    requires IsPath(edge, p) && p[0] in s
    requires forall a, b :: a in s && edge(a, b) ==> b in s
    ensures p[|p| - 1] in s
  {
    if |p| > 1 {
      assert edge(p[0], p[1]);
      ClosedHoldsPath(edge, s, p[1..]);
    }
  }

  /** Cut a path behind its last visit to its start: what is left starts at a successor
      and never comes back. */
  lemma {:induction false} LeaveForGood(edge: Edges, p: seq<string>, a: string, b: string, avoid: set<string>)
    requires JoinsAvoiding(edge, p, a, b, avoid) && !edge(a, b)
    ensures exists c :: edge(a, c) && ReachesAvoiding(edge, c, b, avoid + {a})
    decreases |p|
  {
    assert edge(p[0], p[1]);
    var q := p[1..];
    if m :| 0 <= m < |q| - 1 && q[m] == a {
      LeaveForGood(edge, q[m..], a, b, avoid);
    } else {
      assert JoinsAvoiding(edge, q, q[0], b, avoid + {a});
    }
  }
}
