/** Douglas-Peucker as the outline generator runs it: with a stack and a mark a vertex.
    Distances are compared squared, which decides the same way. */
module Simplify {
  import opened Geometry

  /** Squared distance of `p` from the line through `a` and `b`, or from `a` when they coincide. */
  function DistSq(a: Point, b: Point, p: Point): (d: real)
    ensures d >= 0.0
  {
    var dx, dy := (b.x - a.x) as real, (b.y - a.y) as real;
    var u, w := (a.x - p.x) as real, (a.y - p.y) as real;
    LengthSqSign(b.x - a.x, b.y - a.y);
    LengthSqSign(a.x - p.x, a.y - p.y);
    if a == b then LengthSq(u, w) else Over(dx * w - u * dy, LengthSq(dx, dy))
  }

  function LengthSq(x: real, y: real): real {
    x * x + y * y
  }

  lemma LengthSqSign(x: int, y: int)
    ensures LengthSq(x as real, y as real) >= 0.0
    ensures x != 0 || y != 0 ==> LengthSq(x as real, y as real) > 0.0
  {
    assert x * x >= 0 && y * y >= 0;
    assert x != 0 || y != 0 ==> x * x + y * y > 0;
    assert LengthSq(x as real, y as real) == (x * x + y * y) as real;
  }

  /** The squared area over the squared length. */
  function Over(area: real, length: real): (d: real)
    requires length > 0.0
    ensures d >= 0.0 && d * length == area * area
  {
    Quotient(area * area, length);
    area * area / length
  }

  lemma Quotient(a: real, n: real)
    requires n > 0.0
    ensures a / n * n == a
    ensures a >= 0.0 ==> a / n >= 0.0
  {
  }

  // ---- What the distance measures -----------------------------------------------------

  /** Squared distance of `p` from the point that lies the share `t` of the way from `a` to `b`. */
  ghost function DistSqAt(a: Point, b: Point, p: Point, t: real): real {
    var x := (a.x - p.x) as real + t * (b.x - a.x) as real;
    var y := (a.y - p.y) as real + t * (b.y - a.y) as real;
    x * x + y * y
  }

  lemma ProductsOfSums(dx: real, dy: real, x: real, y: real)
    ensures (dx * dx + dy * dy) * (x * x + y * y)
         == (dx * y - x * dy) * (dx * y - x * dy) + (dx * x + dy * y) * (dx * x + dy * y)
  {
  }

  /** The area the chord spans with `p` does not depend on where on the line it is taken. */
  lemma SameArea(dx: real, dy: real, u: real, w: real, t: real)
    ensures dx * (w + t * dy) - (u + t * dx) * dy == dx * w - u * dy
  {
  }

  lemma Factor(d: real, n: real, at: real, rest: real)
    requires n > 0.0 && n * at == d * n + rest && rest >= 0.0
    ensures d <= at
    ensures rest == 0.0 ==> d == at
  {
  }

  /** Of the squared distances from the points of a line, that over the area is the least; it is
      attained where the way to the line is square to it. */
  lemma LineBelow(dx: real, dy: real, u: real, w: real, t: real)
    requires LengthSq(dx, dy) > 0.0
    ensures Over(dx * w - u * dy, LengthSq(dx, dy)) <= LengthSq(u + t * dx, w + t * dy)
    ensures dx * (u + t * dx) + dy * (w + t * dy) == 0.0 ==>
              Over(dx * w - u * dy, LengthSq(dx, dy)) == LengthSq(u + t * dx, w + t * dy)
  {
    var x, y, n := u + t * dx, w + t * dy, LengthSq(dx, dy);
    var along := dx * x + dy * y;
    ProductsOfSums(dx, dy, x, y);
    SameArea(dx, dy, u, w, t);
    assert along * along >= 0.0;
    Factor(Over(dx * w - u * dy, n), n, x * x + y * y, along * along);
  }

  /** The two ends and the point, seen from each other. */
  ghost predicate SeenFrom(a: Point, b: Point, p: Point, dx: real, dy: real, u: real, w: real) {
    && dx == (b.x - a.x) as real && dy == (b.y - a.y) as real
    && u == (a.x - p.x) as real && w == (a.y - p.y) as real
  }

  lemma DistSqOfLine(a: Point, b: Point, p: Point, dx: real, dy: real, u: real, w: real)
    requires a != b && SeenFrom(a, b, p, dx, dy, u, w)
    ensures LengthSq(dx, dy) > 0.0 && DistSq(a, b, p) == Over(dx * w - u * dy, LengthSq(dx, dy))
  {
    LengthSqSign(b.x - a.x, b.y - a.y);
  }

  lemma DistSqAtLine(a: Point, b: Point, p: Point, dx: real, dy: real, u: real, w: real, t: real)
    requires SeenFrom(a, b, p, dx, dy, u, w)
    ensures DistSqAt(a, b, p, t) == LengthSq(u + t * dx, w + t * dy)
  {
  }

  lemma DistSqOfPoint(a: Point, p: Point, t: real)
    ensures DistSqAt(a, a, p, t) == DistSq(a, a, p)
  {
    assert t * 0.0 == 0.0;
  }

  /** The foot of the perpendicular. */
  lemma FootOf(dx: real, dy: real, u: real, w: real) returns (t: real)
    requires LengthSq(dx, dy) > 0.0
    ensures dx * (u + t * dx) + dy * (w + t * dy) == 0.0
  {
    var m, n := dx * u + dy * w, LengthSq(dx, dy);
    t := -m / n;
    Quotient(-m, n);
    assert dx * (u + t * dx) + dy * (w + t * dy) == m + t * n;
  }

  /** It is the least squared distance from any point of the line through `a` and `b`, or from
      `a` when they coincide. */
  lemma DistSqIsLeast(a: Point, b: Point, p: Point)
    ensures forall t :: DistSq(a, b, p) <= DistSqAt(a, b, p, t)
    ensures exists t :: DistSqAt(a, b, p, t) == DistSq(a, b, p)
  {
    if a == b {
      forall t ensures DistSqAt(a, b, p, t) == DistSq(a, b, p) { DistSqOfPoint(a, p, t); }
      assert DistSqAt(a, b, p, 0.0) == DistSq(a, b, p);
    } else {
      var dx, dy := (b.x - a.x) as real, (b.y - a.y) as real;
      var u, w := (a.x - p.x) as real, (a.y - p.y) as real;
      DistSqOfLine(a, b, p, dx, dy, u, w);
      forall t ensures DistSq(a, b, p) <= DistSqAt(a, b, p, t) {
        DistSqAtLine(a, b, p, dx, dy, u, w, t);
        LineBelow(dx, dy, u, w, t);
      }
      var t := FootOf(dx, dy, u, w);
      DistSqAtLine(a, b, p, dx, dy, u, w, t);
      LineBelow(dx, dy, u, w, t);
    }
  }

  /** Some point of the line through `a` and `b` is within the tolerance of `p`. */
  ghost predicate Near(a: Point, b: Point, p: Point, tolSq: real) {
    exists t :: DistSqAt(a, b, p, t) <= tolSq
  }

  lemma NearIff(a: Point, b: Point, p: Point, tolSq: real)
    ensures Near(a, b, p, tolSq) <==> DistSq(a, b, p) <= tolSq
  {
    DistSqIsLeast(a, b, p);
  }

  function Off(ring: Ring, s: nat, e: nat, i: nat): real
    requires s < |ring| && e < |ring| && i < |ring|
  {
    DistSq(ring[s], ring[e], ring[i])
  }

  // ---- The recursive algorithm --------------------------------------------------------

  /** The first of the vertices after `s` and before `to` that lie farthest off the chord. */
  function Farthest(ring: Ring, s: nat, e: nat, until: nat): (at: nat)
    requires s + 2 <= until <= e < |ring|
    ensures s < at < until
    decreases until
  {
    if until == s + 2 then s + 1
    else
      var best := Farthest(ring, s, e, until - 1);
      if Off(ring, s, e, until - 1) > Off(ring, s, e, best) then until - 1 else best
  }

  lemma {:induction false} FarthestIsFarthest(ring: Ring, s: nat, e: nat, until: nat)
    requires s + 2 <= until <= e < |ring|
    ensures forall i :: s < i < until ==> Off(ring, s, e, i) <= Off(ring, s, e, Farthest(ring, s, e, until))
    ensures forall i :: s < i < Farthest(ring, s, e, until) ==>
              Off(ring, s, e, i) < Off(ring, s, e, Farthest(ring, s, e, until))
    decreases until
  {
    if until > s + 2 { FarthestIsFarthest(ring, s, e, until - 1); }
  }

  /** The vertices strictly between `s` and `e` that the recursion keeps. */
  function Kept(ring: Ring, s: nat, e: nat, tolSq: real): set<nat>
    requires s <= e < |ring|
    decreases e - s
  {
    if e - s < 2 then {}
    else
      var m := Farthest(ring, s, e, e);
      if Off(ring, s, e, m) > tolSq then {m} + Kept(ring, s, m, tolSq) + Kept(ring, m, e, tolSq) else {}
  }

  lemma {:induction false} KeptInside(ring: Ring, s: nat, e: nat, tolSq: real)
    requires s <= e < |ring|
    ensures forall i :: i in Kept(ring, s, e, tolSq) ==> s < i < e
    decreases e - s
  {
    if e - s >= 2 {
      var m := Farthest(ring, s, e, e);
      KeptInside(ring, s, m, tolSq);
      KeptInside(ring, m, e, tolSq);
    }
  }

  ghost predicate AllNear(ring: Ring, a: nat, b: nat, tolSq: real)
    requires a < |ring| && b < |ring|
  {
    forall d :: a < d < b ==> Near(ring[a], ring[b], ring[d], tolSq)
  }

  /** Nothing is kept exactly when everything lies within the tolerance of the chord's line. */
  lemma KeptNothingIff(ring: Ring, s: nat, e: nat, tolSq: real)
    requires s <= e < |ring|
    ensures Kept(ring, s, e, tolSq) == {} <==> AllNear(ring, s, e, tolSq)
  {
    forall i | s < i < e ensures Near(ring[s], ring[e], ring[i], tolSq) <==> Off(ring, s, e, i) <= tolSq {
      NearIff(ring[s], ring[e], ring[i], tolSq);
    }
    if e - s >= 2 {
      FarthestIsFarthest(ring, s, e, e);
      var m := Farthest(ring, s, e, e);
      if Off(ring, s, e, m) > tolSq { assert m in Kept(ring, s, e, tolSq); }
    }
  }

  /** Of the vertices between `a` and `b`, `m` is the first that lies farthest off their chord,
      and it lies beyond the tolerance. */
  ghost predicate Sticks(ring: Ring, a: nat, m: nat, b: nat, tolSq: real) {
    && a < m < b < |ring|
    && !Near(ring[a], ring[b], ring[m], tolSq)
    && (forall i :: a < i < b ==> Off(ring, a, b, i) <= Off(ring, a, b, m))
    && (forall i :: a < i < m ==> Off(ring, a, b, i) < Off(ring, a, b, m))
  }

  /** Every vertex the recursion keeps was needed: it sticks out between two others it keeps. */
  lemma {:induction false} KeptSticksOut(ring: Ring, s: nat, e: nat, tolSq: real, m: nat)
    requires s <= e < |ring| && m in Kept(ring, s, e, tolSq)
    ensures exists a, b :: a in {s, e} + Kept(ring, s, e, tolSq) && b in {s, e} + Kept(ring, s, e, tolSq)
                        && Sticks(ring, a, m, b, tolSq)
    decreases e - s
  {
    var f := Farthest(ring, s, e, e);
    FarthestIsFarthest(ring, s, e, e);
    NearIff(ring[s], ring[e], ring[f], tolSq);
    if m == f {
      assert Sticks(ring, s, m, e, tolSq);
    } else if m in Kept(ring, s, f, tolSq) {
      KeptSticksOut(ring, s, f, tolSq, m);
    } else {
      KeptSticksOut(ring, f, e, tolSq, m);
    }
  }

  /** `a` and `b` are kept and nothing between them is. */
  ghost predicate Neighbours(kept: set<nat>, a: nat, b: nat) {
    a < b && a in kept && b in kept && forall i :: a < i < b ==> i !in kept
  }

  ghost predicate NearChord(ring: Ring, kept: set<nat>, tolSq: real, a: nat, d: nat, b: nat) {
    a < d < b < |ring| && Neighbours(kept, a, b) && Off(ring, a, b, d) <= tolSq
  }

  /** Every vertex the recursion drops lies near the chord of the kept vertices around it. */
  lemma {:induction false} DroppedNearChord(ring: Ring, s: nat, e: nat, tolSq: real, d: nat) returns (a: nat, b: nat)
    requires s < d < e < |ring| && d !in Kept(ring, s, e, tolSq)
    ensures s <= a && b <= e
    ensures NearChord(ring, {s, e} + Kept(ring, s, e, tolSq), tolSq, a, d, b)
    decreases e - s
  {
    var m := Farthest(ring, s, e, e);
    if Off(ring, s, e, m) > tolSq {
      KeptInside(ring, s, m, tolSq);
      KeptInside(ring, m, e, tolSq);
      if d < m {
        a, b := DroppedNearChord(ring, s, m, tolSq, d);
      } else {
        a, b := DroppedNearChord(ring, m, e, tolSq, d);
      }
    } else {
      FarthestIsFarthest(ring, s, e, e);
      a, b := s, e;
    }
  }

  // ---- The kept vertices as a ring ------------------------------------------------------

  function Survivors(ring: Ring, tolSq: real): set<nat>
    requires ring != []
  {
    {0, |ring| - 1} + Kept(ring, 0, |ring| - 1, tolSq)
  }

  /** The members of `kept` below `n`, in order. */
  function Ascending(kept: set<nat>, n: nat): seq<nat> {
    if n == 0 then [] else Ascending(kept, n - 1) + if n - 1 in kept then [n - 1] else []
  }

  lemma {:induction false} AscendingMeaning(kept: set<nat>, n: nat)
    ensures var idx := Ascending(kept, n);
      && (forall k :: k in idx <==> k in kept && k < n)
      && (forall i, j :: 0 <= i < j < |idx| ==> idx[i] < idx[j])
  {
    if n > 0 {
      AscendingMeaning(kept, n - 1);
      var front := Ascending(kept, n - 1);
      forall i | 0 <= i < |front| ensures front[i] < n - 1 { assert front[i] in front; }
    }
  }

  lemma AscendingBelow(kept: set<nat>, n: nat)
    ensures forall i :: 0 <= i < |Ascending(kept, n)| ==> Ascending(kept, n)[i] < n
  {
    AscendingMeaning(kept, n);
    forall i | 0 <= i < |Ascending(kept, n)| ensures Ascending(kept, n)[i] < n {
      assert Ascending(kept, n)[i] in Ascending(kept, n);
    }
  }

  function Pick(ring: Ring, idx: seq<nat>): Ring
    requires forall i :: 0 <= i < |idx| ==> idx[i] < |ring|
  {
    seq(|idx|, i requires 0 <= i < |idx| => ring[idx[i]])
  }

  function KeptIndices(ring: Ring, tolSq: real): (idx: seq<nat>)
    requires ring != []
    ensures forall i :: 0 <= i < |idx| ==> idx[i] < |ring|
  {
    AscendingBelow(Survivors(ring, tolSq), |ring|);
    Ascending(Survivors(ring, tolSq), |ring|)
  }

  /** The recursive Douglas-Peucker; short rings and tolerances of zero are left alone. */
  function Simplified(ring: Ring, tolerance: real): Ring {
    if tolerance <= 0.0 || |ring| <= 4 then ring else Pick(ring, KeptIndices(ring, tolerance * tolerance))
  }

  /** `idx` picks vertices of the ring in order, from the first to the last, and every vertex
      it skips lies within the tolerance of the line through the two it picks around it. */
  ghost predicate PicksClosely(ring: Ring, idx: seq<nat>, tolSq: real) {
    && (forall i, j :: 0 <= i < j < |idx| ==> idx[i] < idx[j])
    && (forall i :: 0 <= i < |idx| ==> idx[i] < |ring|)
    && (if ring == [] then idx == [] else idx != [] && idx[0] == 0 && idx[|idx| - 1] == |ring| - 1)
    && forall k :: 0 <= k < |idx| - 1 ==> GapIsNear(ring, idx, k, tolSq)
  }

  ghost predicate GapIsNear(ring: Ring, idx: seq<nat>, k: int, tolSq: real)
    requires forall i :: 0 <= i < |idx| ==> idx[i] < |ring|
    requires 0 <= k < |idx| - 1
  {
    AllNear(ring, idx[k], idx[k + 1], tolSq)
  }

  ghost predicate IsPick(ring: Ring, idx: seq<nat>, r: Ring) {
    && |r| == |idx|
    && forall i :: 0 <= i < |idx| ==> idx[i] < |ring| && r[i] == ring[idx[i]]
  }

  /** `r` picks vertices of the ring closely. */
  ghost predicate Promised(ring: Ring, tolSq: real, r: Ring) {
    exists idx :: IsPick(ring, idx, r) && PicksClosely(ring, idx, tolSq)
  }

  lemma {:induction false} WholeIsPromised(ring: Ring, tolSq: real)
    ensures Promised(ring, tolSq, ring)
  {
    var all: seq<nat> := seq(|ring|, i => i);
    assert IsPick(ring, all, ring) && PicksClosely(ring, all, tolSq);
  }

  lemma {:induction false} PickIsPromised(ring: Ring, tolSq: real)
    requires |ring| >= 2
    ensures Promised(ring, tolSq, Pick(ring, KeptIndices(ring, tolSq)))
  {
    KeptArePickedClosely(ring, tolSq);
    assert IsPick(ring, KeptIndices(ring, tolSq), Pick(ring, KeptIndices(ring, tolSq)));
  }

  /** What simplification promises, of any ring: vertices of the ring in order, from the first
      to the last, and close to all the others. */
  lemma {:induction false} SimplifiedStaysClose(ring: Ring, tolerance: real)
    ensures Promised(ring, tolerance * tolerance, Simplified(ring, tolerance))
  {
    var tolSq := tolerance * tolerance;
    if tolerance <= 0.0 || |ring| <= 4 {
      WholeIsPromised(ring, tolSq);
    } else {
      PickIsPromised(ring, tolSq);
    }
  }

  lemma KeptArePickedClosely(ring: Ring, tolSq: real)
    requires |ring| >= 2
    ensures PicksClosely(ring, KeptIndices(ring, tolSq), tolSq)
  {
    var kept, idx, n := Survivors(ring, tolSq), KeptIndices(ring, tolSq), |ring|;
    AscendingMeaning(kept, n);
    KeptInside(ring, 0, n - 1, tolSq);
    assert 0 in idx && n - 1 in idx;
    EndsOfAscending(idx, n - 1);
    forall k | 0 <= k < |idx| - 1 ensures GapIsNear(ring, idx, k, tolSq) {
      var p, q := idx[k], idx[k + 1];
      assert p in idx && q in idx;
      forall d | p < d < q ensures Near(ring[p], ring[q], ring[d], tolSq) {
        GapVertexNear(ring, tolSq, idx, k, d);
        NearIff(ring[p], ring[q], ring[d], tolSq);
      }
    }
  }

  lemma GapVertexNear(ring: Ring, tolSq: real, idx: seq<nat>, k: nat, d: nat)
    requires |ring| >= 2 && k + 1 < |idx| && idx[k] < d < idx[k + 1] < |ring|
    requires forall i, j :: 0 <= i < j < |idx| ==> idx[i] < idx[j]
    requires forall i: nat :: i in idx <==> i in Survivors(ring, tolSq) && i < |ring|
    ensures Off(ring, idx[k], idx[k + 1], d) <= tolSq
  {
    GapIsDropped(idx, k, d);
    var a, b := DroppedNearChord(ring, 0, |ring| - 1, tolSq, d);
    assert a in idx && b in idx && idx[k] in idx && idx[k + 1] in idx;
    GapIsNeighbours(Survivors(ring, tolSq), idx, k, a, d, b);
  }

  /** Fewer than three vertices are left exactly of a ring that had no more, or whose vertices
      all lie within the tolerance of the chord from the first to the last. */
  lemma TooFewLeftIff(ring: Ring, tolerance: real)
    ensures |Simplified(ring, tolerance)| < 3
       <==> |ring| < 3 || (tolerance > 0.0 && |ring| > 4 && AllNear(ring, 0, |ring| - 1, tolerance * tolerance))
  {
    if tolerance > 0.0 && |ring| > 4 {
      var tolSq, last := tolerance * tolerance, |ring| - 1;
      var kept, idx := Survivors(ring, tolSq), KeptIndices(ring, tolSq);
      AscendingMeaning(kept, |ring|);
      KeptNothingIff(ring, 0, last, tolSq);
      KeptInside(ring, 0, last, tolSq);
      if k :| k in Kept(ring, 0, last, tolSq) {
        ThreePicked(idx, 0, k, last);
      }
      if |idx| >= 3 {
        MiddlePicked(idx, last);
        assert idx[1] in idx;
        assert idx[1] in Kept(ring, 0, last, tolSq);
      }
    }
  }

  lemma ThreePicked(idx: seq<nat>, a: nat, b: nat, c: nat)
    requires a in idx && b in idx && c in idx && a < b < c
    ensures |idx| >= 3
  {
    var i :| 0 <= i < |idx| && idx[i] == a;
    var j :| 0 <= j < |idx| && idx[j] == b;
    var k :| 0 <= k < |idx| && idx[k] == c;
  }

  lemma MiddlePicked(idx: seq<nat>, last: nat)
    requires forall i, j :: 0 <= i < j < |idx| ==> idx[i] < idx[j]
    requires |idx| >= 3 && forall k :: k in idx ==> k <= last
    ensures 0 < idx[1] < last
  {
    assert idx[0] < idx[1] < idx[2] && idx[2] in idx;
  }

  lemma SimplifiedPicks(ring: Ring, tolerance: real)
    ensures forall p :: p in Simplified(ring, tolerance) ==> p in ring
  {
  }

  lemma EndsOfAscending(idx: seq<nat>, last: nat)
    requires forall i, j :: 0 <= i < j < |idx| ==> idx[i] < idx[j]
    requires 0 in idx && last in idx && last > 0 && forall k :: k in idx ==> k <= last
    ensures |idx| >= 2 && idx[0] == 0 && idx[|idx| - 1] == last
  {
    var i :| 0 <= i < |idx| && idx[i] == 0;
    var j :| 0 <= j < |idx| && idx[j] == last;
    assert idx[0] in idx && idx[|idx| - 1] in idx;
    assert i != j;
  }

  lemma GapIsDropped(idx: seq<nat>, k: nat, d: nat)
    requires forall i, j :: 0 <= i < j < |idx| ==> idx[i] < idx[j]
    requires k + 1 < |idx| && idx[k] < d < idx[k + 1]
    ensures d !in idx
  {
    forall i | 0 <= i < |idx| ensures idx[i] != d {
      assert i < k ==> idx[i] < idx[k];
      assert k + 1 < i ==> idx[k + 1] < idx[i];
    }
  }

  lemma GapIsNeighbours(kept: set<nat>, idx: seq<nat>, k: nat, a: nat, d: nat, b: nat)
    requires forall i, j :: 0 <= i < j < |idx| ==> idx[i] < idx[j]
    requires k + 1 < |idx| && idx[k] < d < idx[k + 1] && a < d < b
    requires Neighbours(kept, a, b) && a in idx && b in idx
    requires idx[k] in kept && idx[k + 1] in kept
    ensures a == idx[k] && b == idx[k + 1]
  {
    var i :| 0 <= i < |idx| && idx[i] == a;
    var j :| 0 <= j < |idx| && idx[j] == b;
    assert forall x :: k + 1 < x < |idx| ==> idx[k + 1] < idx[x];
    assert forall x :: 0 <= x < k ==> idx[x] < idx[k];
    assert i == k && j == k + 1;
  }

  // ---- The iterative algorithm -------------------------------------------------------------

  type Span = (nat, nat)

  ghost predicate SpansFit(stack: seq<Span>, n: nat) {
    forall k :: 0 <= k < |stack| ==> stack[k].0 < stack[k].1 < n
  }

  /** What the spans on the stack will still keep. */
  ghost function Pending(ring: Ring, stack: seq<Span>, tolSq: real): set<nat>
    requires SpansFit(stack, |ring|)
  {
    if stack == [] then {}
    else
      var top := stack[|stack| - 1];
      Pending(ring, stack[..|stack| - 1], tolSq) + Kept(ring, top.0, top.1, tolSq)
  }

  ghost function Work(stack: seq<Span>, n: nat): nat
    requires SpansFit(stack, n)
  {
    if stack == [] then 0
    else
      var top := stack[|stack| - 1];
      Work(stack[..|stack| - 1], n) + 2 * (top.1 - top.0) - 1
  }

  ghost function Marked(keep: seq<bool>): set<nat> {
    set i: nat | i < |keep| && keep[i]
  }

  lemma Unpack(ring: Ring, rest: seq<Span>, a: Span, b: Span, tolSq: real)
    requires SpansFit(rest, |ring|) && a.0 < a.1 < |ring| && b.0 < b.1 < |ring|
    ensures SpansFit(rest + [a, b], |ring|)
    ensures Pending(ring, rest + [a, b], tolSq)
         == Pending(ring, rest, tolSq) + Kept(ring, a.0, a.1, tolSq) + Kept(ring, b.0, b.1, tolSq)
    ensures Work(rest + [a, b], |ring|)
         == Work(rest, |ring|) + 2 * (a.1 - a.0) - 1 + 2 * (b.1 - b.0) - 1
  {
    var two, one := rest + [a, b], rest + [a];
    assert two[..|two| - 1] == one && one[..|one| - 1] == rest;
  }

  /** The scan of one span. */
  method FarthestVertex(ring: Ring, start: nat, end: nat) returns (far: real, at: nat)
    requires start + 2 <= end < |ring|
    ensures at == Farthest(ring, start, end, end) && far == Off(ring, start, end, at)
  {
    far, at := -1.0, start;
    for index := start + 1 to end
      invariant index == start + 1 ==> far == -1.0
      invariant index > start + 1 ==> at == Farthest(ring, start, end, index) && far == Off(ring, start, end, at)
    {
      var distance := Off(ring, start, end, index);
      if distance > far {
        far, at := distance, index;
      }
    }
  }

  method Collect(ring: Ring, keep: array<bool>) returns (r: Ring)
    requires keep.Length == |ring|
    ensures forall i :: 0 <= i < |Ascending(Marked(keep[..]), |ring|)| ==>
              Ascending(Marked(keep[..]), |ring|)[i] < |ring|
    ensures r == Pick(ring, Ascending(Marked(keep[..]), |ring|))
  {
    var idx: seq<nat> := [];
    r := [];
    for i := 0 to |ring|
      invariant idx == Ascending(Marked(keep[..]), i)
      invariant forall k :: 0 <= k < |idx| ==> idx[k] < i
      invariant r == Pick(ring, idx)
    {
      assert keep[i] <==> i in Marked(keep[..]);
      if keep[i] {
        idx, r := idx + [i], r + [ring[i]];
      }
    }
  }

  method Mark(keep: array<bool>, at: nat)
    requires at < keep.Length
    modifies keep
    ensures Marked(keep[..]) == old(Marked(keep[..])) + {at}
  {
    keep[at] := true;
    assert keep[..] == old(keep[..])[at := true];
  }

  /** The stack algorithm picks exactly the vertices the recursion keeps. */
  method Simplify(ring: Ring, tolerance: real) returns (r: Ring)
    ensures r == Simplified(ring, tolerance)
    ensures Promised(ring, tolerance * tolerance, r)
  {
    SimplifiedStaysClose(ring, tolerance);
    if tolerance <= 0.0 || |ring| <= 4 {
      return ring;
    }
    r := Reduce(ring, tolerance * tolerance);
  }

  method Reduce(ring: Ring, tolSq: real) returns (r: Ring)
    requires |ring| >= 2
    ensures r == Pick(ring, KeptIndices(ring, tolSq))
  {
    var keep := new bool[|ring|](_ => false);
    keep[0], keep[|ring| - 1] := true, true;
    var stack: seq<Span> := [(0, |ring| - 1)];
    assert stack[..0] == [];
    while stack != []
      invariant SpansFit(stack, |ring|)
      invariant Marked(keep[..]) + Pending(ring, stack, tolSq) == Survivors(ring, tolSq)
      decreases Work(stack, |ring|)
    {
      var (start, end) := stack[|stack| - 1];
      stack := stack[..|stack| - 1];
      if end - start < 2 { continue; }
      var far, at := FarthestVertex(ring, start, end);
      if far > tolSq {
        Mark(keep, at);
        Unpack(ring, stack, (start, at), (at, end), tolSq);
        stack := stack + [(start, at), (at, end)];
      }
    }
    assert Marked(keep[..]) == Survivors(ring, tolSq);
    r := Collect(ring, keep);
    assert Marked(keep[..]) == Survivors(ring, tolSq);
  }
}
