/** What the coast of a clipped outline is made of, in terms of the outline itself: where it
    meets the floor, how often it leaves it, and which of its edges are edges of the outline. */
module Shores {
  import opened Geometry
  import opened Types
  import opened Sorting
  import opened Clip
  import opened Coast

  const FLOOR: int := -MERCATOR_LIMIT

  const LOW: HalfPlane := HalfPlane(Latitude, FLOOR, true)
  const HIGH: HalfPlane := HalfPlane(Latitude, MERCATOR_LIMIT, false)

  function Lowered(outline: Ring, round: Rounding): Ring {
    Clipped(LOW, outline, round)
  }

  /** The outline clipped to the latitudes Web Mercator has. */
  function Charted(outline: Ring, round: Rounding): Ring {
    ClippedBetween(Latitude, outline, FLOOR, MERCATOR_LIMIT, round)
  }

  function CoastFor(charted: Ring): Result<Ring, CoastError> {
    CoastOf(charted, MeetsFloor(charted, FLOOR), FLOOR)
  }

  ghost predicate AllBelow(outline: Ring, y: int) {
    forall p :: p in outline ==> p.y < y
  }

  ghost predicate AllAbove(outline: Ring, y: int) {
    forall p :: p in outline ==> p.y > y
  }

  /** Nothing of the outline can be drawn: too few vertices, or all on one side. */
  ghost predicate Lost(outline: Ring) {
    |outline| < 3 || AllBelow(outline, FLOOR) || AllAbove(outline, MERCATOR_LIMIT)
  }

  lemma ChartedEmptyIff(outline: Ring, round: Rounding)
    requires Rounds(round) && |outline| >= 3
    ensures Charted(outline, round) == [] <==> Lost(outline)
    ensures Charted(outline, round) == [] || |Charted(outline, round)| >= 3
    ensures !Lost(outline) ==> |Lowered(outline, round)| >= 3
  {
    ClippedBetweenEmptyIff(Latitude, outline, FLOOR, MERCATOR_LIMIT, round);
    ClippedEmptyIff(LOW, outline, round);
    if !AllBelow(outline, FLOOR) {
      var p :| p in outline && p.y >= FLOOR;
      assert Keeps(LOW, p);
    }
  }

  // ---- Where the shore is -----------------------------------------------------------------

  predicate Off(p: Point) {
    !OnFloor(p, FLOOR)
  }

  function Shore(ring: Ring): Ring {
    OffFloor(ring, FLOOR)
  }

  lemma ShoreConcat(a: Ring, b: Ring)
    ensures Shore(a + b) == Shore(a) + Shore(b)
  {
    FilterConcat(a, b, (p: Point) => !OnFloor(p, FLOOR));
  }

  /** The floor pass changes nothing off the floor. */
  lemma {:induction false} LowPassKeepsShore(outline: Ring, round: Rounding, n: nat)
    requires Rounds(round) && n <= |outline|
    ensures Shore(Emitted(LOW, outline, round, n)) == Shore(outline[..n])
  {
    if n > 0 {
      LowPassKeepsShore(outline, round, n - 1);
      var a, b := Vertex(outline, n - 1), Vertex(outline, n);
      assert outline[..n] == outline[..n - 1] + [a];
      ShoreConcat(outline[..n - 1], [a]);
      ShoreConcat(Emitted(LOW, outline, round, n - 1), Emit(LOW, a, b, round));
      LowEmitShore(a, b, round);
    }
  }

  lemma LowEmitShore(a: Point, b: Point, round: Rounding)
    requires Rounds(round)
    ensures Shore(Emit(LOW, a, b, round)) == Shore([a])
  {
    var crossing := if Keeps(LOW, a) != Keeps(LOW, b) then [Cross(LOW, a, b, round)] else [];
    if crossing != [] { CrossBetween(LOW, a, b, round); }
    assert Shore(crossing) == [];
    ShoreConcat(if Keeps(LOW, a) then [a] else [], crossing);
    assert [a][1..] == [];
  }

  /** What the ceiling pass inserts is off the floor. */
  lemma {:induction false} HighPassShore(ring: Ring, round: Rounding, n: nat)
    requires Rounds(round) && n <= |ring|
    ensures |Shore(Emitted(HIGH, ring, round, n))| >= Turns(HIGH, ring, n)
  {
    if n > 0 {
      HighPassShore(ring, round, n - 1);
      var a, b := Vertex(ring, n - 1), Vertex(ring, n);
      ShoreConcat(Emitted(HIGH, ring, round, n - 1), Emit(HIGH, a, b, round));
      if Keeps(HIGH, a) != Keeps(HIGH, b) {
        CrossBetween(HIGH, a, b, round);
        var c := Cross(HIGH, a, b, round);
        assert c in Emit(HIGH, a, b, round);
        assert c in Shore(Emit(HIGH, a, b, round));
      }
    }
  }

  ghost predicate Climbs(outline: Ring) {
    exists p :: p in outline && p.y > MERCATOR_LIMIT
  }

  lemma LoweredStaysBelow(outline: Ring, round: Rounding)
    requires Rounds(round) && !Climbs(outline)
    ensures forall p :: p in Lowered(outline, round) ==> Keeps(HIGH, p)
  {
    var bottom := Lowest(outline, Latitude, 0);
    ClippedInside(LOW, outline, round, Latitude, bottom, MERCATOR_LIMIT);
  }

  /** An outline that stays below the ceiling keeps its shore; one that climbs over it has
      at least the two places where it does. */
  lemma ShoreSize(outline: Ring, round: Rounding)
    requires Rounds(round) && !Lost(outline)
    ensures if Climbs(outline) then |Shore(Charted(outline, round))| >= 2
            else Charted(outline, round) == Lowered(outline, round)
                 && Shore(Charted(outline, round)) == Shore(outline)
  {
    ChartedEmptyIff(outline, round);
    var once := Lowered(outline, round);
    if Climbs(outline) {
      var p :| p in outline && p.y > MERCATOR_LIMIT;
      KeptVertexSurvives(LOW, outline, round, p);
      ClippedEmptyIff(HIGH, once, round);
      var q :| q in once && Keeps(HIGH, q);
      MixedTurnsTwice(HIGH, once, q, p);
      HighPassShore(once, round, |once|);
    } else {
      LoweredStaysBelow(outline, round);
      UnchangedIffInside(HIGH, once, round);
      LowPassKeepsShore(outline, round, |outline|);
      assert outline[..|outline|] == outline;
    }
  }

  /** The clipped ring meets the floor exactly when the outline does. */
  lemma FloorMetIff(outline: Ring, round: Rounding)
    requires Rounds(round) && !Lost(outline)
    ensures MeetsFloor(Charted(outline, round), FLOOR) <==> MeetsFloor(outline, FLOOR)
  {
    ChartedEmptyIff(outline, round);
    if p :| p in outline && OnFloor(p, FLOOR) {
      if p.y == FLOOR {
        VertexBetweenSurvives(Latitude, outline, FLOOR, MERCATOR_LIMIT, round, p);
      } else {
        var q :| q in outline && q.y >= FLOOR;
        MixedMeetsBoundary(LOW, outline, round, q, p);
        var c :| c in Lowered(outline, round) && OnBoundary(LOW, c);
        KeptVertexSurvives(HIGH, Lowered(outline, round), round, c);
      }
    } else {
      var top := Highest(outline, Latitude, 0);
      ClippedInside(LOW, outline, round, Latitude, FLOOR + 1, top);
      ClippedInside(HIGH, Lowered(outline, round), round, Latitude, FLOOR + 1, top);
    }
  }

  // ---- How often the floor is left ------------------------------------------------------------

  /** On the far side of the boundary, and on it, all points are alike: on the floor or off it. */
  ghost predicate Uniform(h: HalfPlane, flag: bool) {
    forall p :: !Keeps(h, p) || OnBoundary(h, p) ==> OnFloor(p, FLOOR) == flag
  }

  lemma RisesPush(path: seq<Point>, p: Point)
    ensures Rises(path + [p], FLOOR)
         == Rises(path, FLOOR) + if path != [] && OnFloor(path[|path| - 1], FLOOR) && Off(p) then 1 else 0
  {
    assert (path + [p])[..|path|] == path;
  }

  ghost predicate RisesSoFar(h: HalfPlane, ring: Ring, n: nat, out: seq<Point>, flag: bool)
    requires ring != [] && n <= |ring|
  {
    var walked := Rises(Closed(ring)[..n + 1], FLOOR);
    if Keeps(h, Vertex(ring, n)) then Rises(out + [Vertex(ring, n)], FLOOR) == walked
    else Rises(out, FLOOR) == walked && (out != [] ==> OnFloor(out[|out| - 1], FLOOR) == flag)
  }

  lemma RisesStaySide(h: HalfPlane, ring: Ring, round: Rounding, n: nat, out: seq<Point>, flag: bool)
    requires Uniform(h, flag) && n < |ring| && RisesSoFar(h, ring, n, out, flag)
    requires Keeps(h, Vertex(ring, n)) == Keeps(h, Vertex(ring, n + 1))
    ensures RisesSoFar(h, ring, n + 1, out + Emit(h, Vertex(ring, n), Vertex(ring, n + 1), round), flag)
  {
    var a, b := Vertex(ring, n), Vertex(ring, n + 1);
    WalkOneMore(ring, n);
    if Keeps(h, a) {
      assert out + Emit(h, a, b, round) == out + [a];
      RisesPush(out + [a], b);
    } else {
      assert out + Emit(h, a, b, round) == out;
    }
  }

  lemma RisesGoesOut(h: HalfPlane, ring: Ring, round: Rounding, n: nat, out: seq<Point>, flag: bool)
    requires Rounds(round) && Uniform(h, flag) && n < |ring| && RisesSoFar(h, ring, n, out, flag)
    requires Keeps(h, Vertex(ring, n)) && !Keeps(h, Vertex(ring, n + 1))
    ensures RisesSoFar(h, ring, n + 1, out + Emit(h, Vertex(ring, n), Vertex(ring, n + 1), round), flag)
  {
    var a, b := Vertex(ring, n), Vertex(ring, n + 1);
    var c := Cross(h, a, b, round);
    WalkOneMore(ring, n);
    CrossBetween(h, a, b, round);
    assert OnFloor(c, FLOOR) == flag == OnFloor(b, FLOOR);
    assert out + Emit(h, a, b, round) == (out + [a]) + [c];
    RisesPush(out + [a], c);
  }

  lemma RisesComesIn(h: HalfPlane, ring: Ring, round: Rounding, n: nat, out: seq<Point>, flag: bool)
    requires Rounds(round) && Uniform(h, flag) && n < |ring| && RisesSoFar(h, ring, n, out, flag)
    requires !Keeps(h, Vertex(ring, n)) && Keeps(h, Vertex(ring, n + 1))
    ensures RisesSoFar(h, ring, n + 1, out + Emit(h, Vertex(ring, n), Vertex(ring, n + 1), round), flag)
  {
    var a, b := Vertex(ring, n), Vertex(ring, n + 1);
    var c := Cross(h, a, b, round);
    WalkOneMore(ring, n);
    CrossBetween(h, a, b, round);
    assert OnFloor(c, FLOOR) == flag == OnFloor(a, FLOOR);
    assert out + Emit(h, a, b, round) == out + [c];
    RisesPush(out, c);
    RisesPush(out + [c], b);
  }

  lemma WalkOneMore(ring: Ring, n: nat)
    requires n < |ring|
    ensures Rises(Closed(ring)[..n + 2], FLOOR) == Rises(Closed(ring)[..n + 1], FLOOR)
         + if OnFloor(Vertex(ring, n), FLOOR) && Off(Vertex(ring, n + 1)) then 1 else 0
  {
    var path := Closed(ring);
    assert path[..n + 2] == path[..n + 1] + [Vertex(ring, n + 1)] && path[..n + 1][n] == Vertex(ring, n);
    RisesPush(path[..n + 1], Vertex(ring, n + 1));
  }

  lemma RisesOneMore(h: HalfPlane, ring: Ring, round: Rounding, n: nat, out: seq<Point>, flag: bool)
    requires Rounds(round) && Uniform(h, flag) && n < |ring| && RisesSoFar(h, ring, n, out, flag)
    ensures RisesSoFar(h, ring, n + 1, out + Emit(h, Vertex(ring, n), Vertex(ring, n + 1), round), flag)
  {
    if Keeps(h, Vertex(ring, n)) == Keeps(h, Vertex(ring, n + 1)) {
      RisesStaySide(h, ring, round, n, out, flag);
    } else if Keeps(h, Vertex(ring, n)) {
      RisesGoesOut(h, ring, round, n, out, flag);
    } else {
      RisesComesIn(h, ring, round, n, out, flag);
    }
  }

  lemma RisesAtFirst(h: HalfPlane, ring: Ring, flag: bool)
    requires ring != []
    ensures RisesSoFar(h, ring, 0, [], flag)
  {
    assert [] + [ring[0]] == Closed(ring)[..1];
  }

  lemma {:induction false} EmittedRisesOn(h: HalfPlane, ring: Ring, round: Rounding, n: nat, flag: bool)
    requires Rounds(round) && Uniform(h, flag) && n < |ring|
    requires RisesSoFar(h, ring, n, Emitted(h, ring, round, n), flag)
    ensures RisesSoFar(h, ring, n + 1, Emitted(h, ring, round, n + 1), flag)
  {
    RisesOneMore(h, ring, round, n, Emitted(h, ring, round, n), flag);
  }

  lemma {:induction false} EmittedRises(h: HalfPlane, ring: Ring, round: Rounding, n: nat, flag: bool)
    requires Rounds(round) && Uniform(h, flag) && ring != [] && n <= |ring|
    ensures RisesSoFar(h, ring, n, Emitted(h, ring, round, n), flag)
  {
    if n == 0 {
      RisesAtFirst(h, ring, flag);
    } else {
      EmittedRises(h, ring, round, n - 1, flag);
      EmittedRisesOn(h, ring, round, n - 1, flag);
    }
  }

  /** A pass whose far side is all floor, or all off it, neither adds nor removes a place
      where the floor is left. */
  lemma PassKeepsLeaves(h: HalfPlane, ring: Ring, round: Rounding, flag: bool)
    requires Rounds(round) && Uniform(h, flag) && ring != [] && Clipped(h, ring, round) != []
    ensures Leaves(Clipped(h, ring, round), FLOOR) == Leaves(ring, FLOOR)
  {
    EmittedRises(h, ring, round, |ring|, flag);
    EmittedStart(h, ring, round, |ring|);
    ClosingKeepsRises(h, ring, Clipped(h, ring, round), flag);
  }

  /** Going back to the first point emitted is going back to the first vertex. */
  lemma ClosingKeepsRises(h: HalfPlane, ring: Ring, out: seq<Point>, flag: bool)
    requires ring != [] && out != [] && Uniform(h, flag) && RisesSoFar(h, ring, |ring|, out, flag)
    requires if Keeps(h, ring[0]) then out[0] == ring[0] else OnBoundary(h, out[0])
    ensures Leaves(out, FLOOR) == Leaves(ring, FLOOR)
  {
    assert Closed(ring)[..|ring| + 1] == Closed(ring);
    RisesPush(out, out[0]);
  }

  /** Clipping does not change how often the outline leaves the floor. */
  lemma ClippingKeepsLeaves(outline: Ring, round: Rounding)
    requires Rounds(round) && !Lost(outline)
    ensures Leaves(Charted(outline, round), FLOOR) == Leaves(outline, FLOOR)
  {
    ChartedEmptyIff(outline, round);
    PassKeepsLeaves(LOW, outline, round, true);
    PassKeepsLeaves(HIGH, Lowered(outline, round), round, false);
  }

  // ---- Which edges are edges of the outline -----------------------------------------------

  /** `p` is an end of edge `k` of the outline, the point where the edge meets the floor, or
      where a stretch of it meets the ceiling. */
  ghost predicate OnOutlineEdge(outline: Ring, round: Rounding, k: nat, p: Point)
    requires k < |outline|
  {
    OnEdge(LOW, outline, round, k, p)
    || exists u, v :: OnEdge(LOW, outline, round, k, u) && OnEdge(LOW, outline, round, k, v)
                   && Keeps(HIGH, u) != Keeps(HIGH, v) && IsCrossing(HIGH, u, v, round, p)
  }

  /** The edge from `p` to `q` lies on an edge of the outline. */
  ghost predicate Genuine(outline: Ring, round: Rounding, p: Point, q: Point) {
    exists k: nat :: k < |outline| && OnOutlineEdge(outline, round, k, p) && OnOutlineEdge(outline, round, k, q)
  }

  predicate AlongCeiling(p: Point, q: Point) {
    p.y == q.y == MERCATOR_LIMIT
  }

  predicate AlongFloor(p: Point, q: Point) {
    p.y == q.y == FLOOR
  }

  lemma ClosedEdgeHonest(h: HalfPlane, ring: Ring, round: Rounding, i: nat)
    requires Rounds(round) && ring != [] && i < |Clipped(h, ring, round)|
    ensures Honest(h, ring, round, Clipped(h, ring, round)[i], Next(Clipped(h, ring, round), i))
  {
    ClippedEdgesHonest(h, ring, round);
    var out := Clipped(h, ring, round);
    assert i + 1 < |out| ==> Honest(h, ring, round, out[i], out[i + 1]);
  }

  /** Every edge of the clipped ring runs along the floor, along the ceiling, or lies on an
      edge of the outline. */
  lemma ChartedEdges(outline: Ring, round: Rounding, i: nat)
    requires Rounds(round) && !Lost(outline) && i < |Charted(outline, round)|
    ensures var p, q := Charted(outline, round)[i], Next(Charted(outline, round), i);
      AlongFloor(p, q) || AlongCeiling(p, q) || Genuine(outline, round, p, q)
  {
    ChartedEmptyIff(outline, round);
    var once, out := Lowered(outline, round), Charted(outline, round);
    var p, q := out[i], Next(out, i);
    ClosedEdgeHonest(HIGH, once, round, i);
    if !AlongCeiling(p, q) {
      var j: nat :| j < |once| && OnEdge(HIGH, once, round, j, p) && OnEdge(HIGH, once, round, j, q);
      var u, v := Vertex(once, j), Vertex(once, j + 1);
      assert v == Next(once, j);
      ClosedEdgeHonest(LOW, outline, round, j);
      if !AlongFloor(u, v) {
        var k: nat :| k < |outline| && OnEdge(LOW, outline, round, k, u) && OnEdge(LOW, outline, round, k, v);
        TwicePassed(outline, once, round, j, k, p);
        TwicePassed(outline, once, round, j, k, q);
      }
    }
  }

  lemma TwicePassed(outline: Ring, once: Ring, round: Rounding, j: nat, k: nat, p: Point)
    requires j < |once| && k < |outline| && OnEdge(HIGH, once, round, j, p)
    requires OnEdge(LOW, outline, round, k, Vertex(once, j)) && OnEdge(LOW, outline, round, k, Vertex(once, j + 1))
    ensures OnOutlineEdge(outline, round, k, p)
  {
  }

  // ---- The pieces of edges that a pass leaves ---------------------------------------------

  /** From `p` to `q` runs what a pass leaves of the edge from `a` to `b`. */
  ghost predicate Piece(h: HalfPlane, round: Rounding, a: Point, b: Point, p: Point, q: Point) {
    && (Keeps(h, a) || Keeps(h, b))
    && (if Keeps(h, a) then p == a else IsCrossing(h, a, b, round, p))
    && (if Keeps(h, b) then q == b else IsCrossing(h, a, b, round, q))
  }

  lemma PieceEnds(h: HalfPlane, round: Rounding, a: Point, b: Point, p: Point, q: Point)
    requires Keeps(h, a) || Keeps(h, b)
    ensures Piece(h, round, a, b, p, q)
       <==> && p == (if Keeps(h, a) then a else Cross(h, a, b, round))
            && q == (if Keeps(h, b) then b else Cross(h, a, b, round))
  {
    if Keeps(h, a) != Keeps(h, b) {
      CrossingIff(h, a, b, round, p);
      CrossingIff(h, a, b, round, q);
    }
  }

  ghost predicate PieceAt(h: HalfPlane, ring: Ring, round: Rounding, k: nat, p: Point, q: Point)
    requires k < |ring|
  {
    Piece(h, round, Vertex(ring, k), Vertex(ring, k + 1), p, q)
  }

  ghost predicate PieceBefore(h: HalfPlane, ring: Ring, round: Rounding, n: nat, p: Point, q: Point)
    requires n <= |ring|
  {
    exists k: nat :: k < n && PieceAt(h, ring, round, k, p, q)
  }

  lemma PieceOneMore(h: HalfPlane, ring: Ring, round: Rounding, n: nat, p: Point, q: Point)
    requires n < |ring|
    ensures PieceBefore(h, ring, round, n + 1, p, q)
       <==> PieceBefore(h, ring, round, n, p, q) || PieceAt(h, ring, round, n, p, q)
  {
  }

  lemma LineEdgePush(path: seq<Point>, x: Point, p: Point, q: Point)
    ensures LineEdge(path + [x], p, q)
       <==> LineEdge(path, p, q) || (path != [] && path[|path| - 1] == p && x == q)
  {
    var more := path + [x];
    if n :| 0 <= n < |path| - 1 && path[n] == p && path[n + 1] == q {
      assert more[n] == p && more[n + 1] == q;
    }
    if path != [] && path[|path| - 1] == p && x == q {
      assert more[|path| - 1] == p && more[|path|] == q;
    }
    if n :| 0 <= n < |more| - 1 && more[n] == p && more[n + 1] == q && n + 1 < |path| {
      assert path[n] == p && path[n + 1] == q;
    }
  }

  ghost predicate AlongBoundary(h: HalfPlane, p: Point, q: Point) {
    OnBoundary(h, p) && OnBoundary(h, q)
  }

  /** After `n` edges the edges emitted, but for those along the boundary, are the pieces of
      the edges walked. */
  ghost predicate PiecesSoFar(h: HalfPlane, ring: Ring, round: Rounding, n: nat, out: seq<Point>, p: Point, q: Point)
    requires ring != [] && n <= |ring|
  {
    if Keeps(h, Vertex(ring, n)) then
      LineEdge(out + [Vertex(ring, n)], p, q) <==> PieceBefore(h, ring, round, n, p, q)
    else
      && (LineEdge(out, p, q) <==> PieceBefore(h, ring, round, n, p, q))
      && (out != [] ==> OnBoundary(h, out[|out| - 1]))
  }

  lemma PiecesStaySide(h: HalfPlane, ring: Ring, round: Rounding, n: nat, out: seq<Point>, p: Point, q: Point)
    requires n < |ring| && PiecesSoFar(h, ring, round, n, out, p, q)
    requires Keeps(h, Vertex(ring, n)) == Keeps(h, Vertex(ring, n + 1))
    ensures PiecesSoFar(h, ring, round, n + 1, out + Emit(h, Vertex(ring, n), Vertex(ring, n + 1), round), p, q)
  {
    var a, b := Vertex(ring, n), Vertex(ring, n + 1);
    PieceOneMore(h, ring, round, n, p, q);
    if Keeps(h, a) {
      assert out + Emit(h, a, b, round) == out + [a];
      LineEdgePush(out + [a], b, p, q);
    } else {
      assert out + Emit(h, a, b, round) == out;
    }
  }

  lemma PiecesGoOut(h: HalfPlane, ring: Ring, round: Rounding, n: nat, out: seq<Point>, p: Point, q: Point)
    requires Rounds(round) && n < |ring| && PiecesSoFar(h, ring, round, n, out, p, q)
    requires Keeps(h, Vertex(ring, n)) && !Keeps(h, Vertex(ring, n + 1))
    ensures PiecesSoFar(h, ring, round, n + 1, out + Emit(h, Vertex(ring, n), Vertex(ring, n + 1), round), p, q)
  {
    var a, b := Vertex(ring, n), Vertex(ring, n + 1);
    var c := Cross(h, a, b, round);
    CrossBetween(h, a, b, round);
    PieceEnds(h, round, a, b, p, q);
    PieceOneMore(h, ring, round, n, p, q);
    assert out + Emit(h, a, b, round) == (out + [a]) + [c];
    LineEdgePush(out + [a], c, p, q);
  }

  lemma PiecesComeIn(h: HalfPlane, ring: Ring, round: Rounding, n: nat, out: seq<Point>, p: Point, q: Point)
    requires Rounds(round) && n < |ring| && PiecesSoFar(h, ring, round, n, out, p, q) && !AlongBoundary(h, p, q)
    requires !Keeps(h, Vertex(ring, n)) && Keeps(h, Vertex(ring, n + 1))
    ensures PiecesSoFar(h, ring, round, n + 1, out + Emit(h, Vertex(ring, n), Vertex(ring, n + 1), round), p, q)
  {
    var a, b := Vertex(ring, n), Vertex(ring, n + 1);
    var c := Cross(h, a, b, round);
    CrossBetween(h, a, b, round);
    PieceEnds(h, round, a, b, p, q);
    PieceOneMore(h, ring, round, n, p, q);
    assert out + Emit(h, a, b, round) == out + [c];
    LineEdgePush(out, c, p, q);
    LineEdgePush(out + [c], b, p, q);
  }

  lemma {:induction false} EmittedPieces(h: HalfPlane, ring: Ring, round: Rounding, n: nat, p: Point, q: Point)
    requires Rounds(round) && ring != [] && n <= |ring| && !AlongBoundary(h, p, q)
    ensures PiecesSoFar(h, ring, round, n, Emitted(h, ring, round, n), p, q)
  {
    if n > 0 {
      EmittedPieces(h, ring, round, n - 1, p, q);
      var out := Emitted(h, ring, round, n - 1);
      if Keeps(h, Vertex(ring, n - 1)) == Keeps(h, Vertex(ring, n)) {
        PiecesStaySide(h, ring, round, n - 1, out, p, q);
      } else if Keeps(h, Vertex(ring, n - 1)) {
        PiecesGoOut(h, ring, round, n - 1, out, p, q);
      } else {
        PiecesComeIn(h, ring, round, n - 1, out, p, q);
      }
    }
  }

  /** Going around the clipped ring one meets, besides the boundary, the pieces of all edges. */
  lemma ClosedPieces(h: HalfPlane, ring: Ring, round: Rounding, p: Point, q: Point)
    requires Rounds(round) && ring != [] && Clipped(h, ring, round) != [] && !AlongBoundary(h, p, q)
    ensures LineEdge(Closed(Clipped(h, ring, round)), p, q) <==> PieceBefore(h, ring, round, |ring|, p, q)
  {
    var out := Clipped(h, ring, round);
    EmittedPieces(h, ring, round, |ring|, p, q);
    EmittedStart(h, ring, round, |ring|);
    if !Keeps(h, ring[0]) { LineEdgePush(out, out[0], p, q); }
  }

  /** Going along it from its first point to its last, one meets the piece of the closing edge
      only when the ring begins outside. */
  lemma OpenPieces(h: HalfPlane, ring: Ring, round: Rounding, p: Point, q: Point)
    requires Rounds(round) && ring != [] && Clipped(h, ring, round) != [] && !AlongBoundary(h, p, q)
    ensures LineEdge(Clipped(h, ring, round), p, q)
       <==> PieceBefore(h, ring, round, if Keeps(h, ring[0]) then |ring| - 1 else |ring|, p, q)
  {
    var n := |ring|;
    if Keeps(h, ring[0]) {
      var a, out := Vertex(ring, n - 1), Emitted(h, ring, round, n - 1);
      EmittedPieces(h, ring, round, n - 1, p, q);
      if Keeps(h, a) {
        assert Emitted(h, ring, round, n) == out + [a];
      } else {
        CrossBetween(h, a, ring[0], round);
        assert Emitted(h, ring, round, n) == out + [Cross(h, a, ring[0], round)];
        LineEdgePush(out, Cross(h, a, ring[0], round), p, q);
      }
    } else {
      EmittedPieces(h, ring, round, n, p, q);
    }
  }

  // ---- The edges of the coast, told from the outline -------------------------------------------

  /** Edge `k` of the outline is on the coast where it is on the chart: the closing edge only
      if the outline meets the floor or begins above the ceiling. */
  ghost predicate OnCoast(outline: Ring, k: nat) {
    k < |outline| && (k + 1 < |outline| || MeetsFloor(outline, FLOOR) || !Keeps(HIGH, outline[0]))
  }

  /** From `p` to `q` runs what the ceiling leaves of an edge of the outline that is off the floor. */
  ghost predicate CoastEdge(outline: Ring, round: Rounding, p: Point, q: Point) {
    Off(p) && Off(q) && exists k: nat :: OnCoast(outline, k) && PieceAt(HIGH, outline, round, k, p, q)
  }

  lemma DrawnIsLineEdge(ring: Ring, p: Point, q: Point)
    requires ring != []
    ensures DrawnEdge(ring, FLOOR, p, q)
       <==> Off(p) && Off(q) && LineEdge(if MeetsFloor(ring, FLOOR) then Closed(ring) else ring, p, q)
  {
    var path := if MeetsFloor(ring, FLOOR) then Closed(ring) else ring;
    if i: nat :| i < |ring| && ring[i] == p && Next(ring, i) == q && (i + 1 < |ring| || MeetsFloor(ring, FLOOR)) {
      assert path[i] == p && path[i + 1] == q;
    }
    if n :| 0 <= n < |path| - 1 && path[n] == p && path[n + 1] == q {
      assert ring[n] == p && Next(ring, n) == q;
    }
  }

  ghost predicate EdgeBefore(ring: Ring, n: nat, p: Point, q: Point)
    requires n <= |ring|
  {
    exists k: nat :: k < n && Vertex(ring, k) == p && Vertex(ring, k + 1) == q
  }

  lemma ClosedEdges(ring: Ring, p: Point, q: Point)
    requires ring != []
    ensures LineEdge(Closed(ring), p, q) <==> EdgeBefore(ring, |ring|, p, q)
  {
    if k: nat :| k < |ring| && Vertex(ring, k) == p && Vertex(ring, k + 1) == q {
      assert Closed(ring)[k] == p && Closed(ring)[k + 1] == q;
    }
    if n :| 0 <= n < |Closed(ring)| - 1 && Closed(ring)[n] == p && Closed(ring)[n + 1] == q {
      assert Vertex(ring, n) == p && Vertex(ring, n + 1) == q;
    }
  }

  /** Off the floor the lowered ring has the edges the outline has. */
  lemma LoweredEdges(outline: Ring, round: Rounding, p: Point, q: Point)
    requires Rounds(round) && !Lost(outline) && Off(p) && Off(q)
    ensures Lowered(outline, round) != []
    ensures EdgeBefore(Lowered(outline, round), |Lowered(outline, round)|, p, q)
       <==> EdgeBefore(outline, |outline|, p, q)
  {
    ChartedEmptyIff(outline, round);
    ClosedPieces(LOW, outline, round, p, q);
    ClosedEdges(Lowered(outline, round), p, q);
    forall k: nat | k < |outline|
      ensures PieceAt(LOW, outline, round, k, p, q) <==> Vertex(outline, k) == p && Vertex(outline, k + 1) == q
    {
      LowPieceIsEdge(round, Vertex(outline, k), Vertex(outline, k + 1), p, q);
    }
  }

  lemma LowPieceIsEdge(round: Rounding, a: Point, b: Point, p: Point, q: Point)
    requires Rounds(round) && Off(p) && Off(q)
    ensures Piece(LOW, round, a, b, p, q) <==> a == p && b == q
  {
    if Keeps(LOW, a) != Keeps(LOW, b) { CrossBetween(LOW, a, b, round); }
  }

  /** A piece off the floor is a piece of an edge off the floor. */
  lemma HighPieceOff(round: Rounding, a: Point, b: Point, p: Point, q: Point)
    requires Piece(HIGH, round, a, b, p, q) && Off(p) && Off(q)
    ensures Off(a) && Off(b)
  {
  }

  lemma PiecesOfLowered(outline: Ring, round: Rounding, p: Point, q: Point)
    requires Rounds(round) && !Lost(outline) && Off(p) && Off(q)
    ensures Lowered(outline, round) != []
    ensures PieceBefore(HIGH, Lowered(outline, round), round, |Lowered(outline, round)|, p, q)
       <==> PieceBefore(HIGH, outline, round, |outline|, p, q)
  {
    ChartedEmptyIff(outline, round);
    var once := Lowered(outline, round);
    if k: nat :| k < |once| && PieceAt(HIGH, once, round, k, p, q) {
      var a, b := Vertex(once, k), Vertex(once, k + 1);
      HighPieceOff(round, a, b, p, q);
      LoweredEdges(outline, round, a, b);
      assert EdgeBefore(once, |once|, a, b);
      var m: nat :| m < |outline| && Vertex(outline, m) == a && Vertex(outline, m + 1) == b;
      assert PieceAt(HIGH, outline, round, m, p, q);
    }
    if k: nat :| k < |outline| && PieceAt(HIGH, outline, round, k, p, q) {
      var a, b := Vertex(outline, k), Vertex(outline, k + 1);
      HighPieceOff(round, a, b, p, q);
      LoweredEdges(outline, round, a, b);
      assert EdgeBefore(outline, |outline|, a, b);
      var m: nat :| m < |once| && Vertex(once, m) == a && Vertex(once, m + 1) == b;
      assert PieceAt(HIGH, once, round, m, p, q);
    }
  }

  lemma DryIsNotLowered(outline: Ring, round: Rounding)
    requires Rounds(round) && |outline| >= 3 && !MeetsFloor(outline, FLOOR)
    ensures Lowered(outline, round) == outline
  {
    UnchangedIffInside(LOW, outline, round);
  }

  /** But for edges along the ceiling, the clipped ring draws exactly the edges of the coast
      that the outline has. */
  lemma DrawnIffCoastEdge(outline: Ring, round: Rounding, p: Point, q: Point)
    requires Rounds(round) && !Lost(outline) && !AlongCeiling(p, q)
    ensures DrawnEdge(Charted(outline, round), FLOOR, p, q) <==> CoastEdge(outline, round, p, q)
  {
    ChartedEmptyIff(outline, round);
    FloorMetIff(outline, round);
    DrawnIsLineEdge(Charted(outline, round), p, q);
    if Off(p) && Off(q) {
      if MeetsFloor(outline, FLOOR) {
        ClosedPieces(HIGH, Lowered(outline, round), round, p, q);
        PiecesOfLowered(outline, round, p, q);
        CoastOfWet(outline, round, p, q);
      } else {
        DryIsNotLowered(outline, round);
        OpenPieces(HIGH, outline, round, p, q);
        CoastOfDry(outline, round, p, q);
      }
    }
  }

  lemma CoastOfWet(outline: Ring, round: Rounding, p: Point, q: Point)
    requires MeetsFloor(outline, FLOOR) && Off(p) && Off(q)
    ensures CoastEdge(outline, round, p, q) <==> PieceBefore(HIGH, outline, round, |outline|, p, q)
  {
    if k: nat :| k < |outline| && PieceAt(HIGH, outline, round, k, p, q) { assert OnCoast(outline, k); }
  }

  lemma CoastOfDry(outline: Ring, round: Rounding, p: Point, q: Point)
    requires outline != [] && !MeetsFloor(outline, FLOOR) && Off(p) && Off(q)
    ensures var n := if Keeps(HIGH, outline[0]) then |outline| - 1 else |outline|;
      CoastEdge(outline, round, p, q) <==> PieceBefore(HIGH, outline, round, n, p, q)
  {
    var n := if Keeps(HIGH, outline[0]) then |outline| - 1 else |outline|;
    if k: nat :| k < n && PieceAt(HIGH, outline, round, k, p, q) { assert OnCoast(outline, k); }
  }

  // ---- Along the ceiling --------------------------------------------------------------------------

  ghost predicate HasCeilingEdge(path: seq<Point>) {
    exists i :: 0 <= i < |path| - 1 && AlongCeiling(path[i], path[i + 1])
  }

  lemma CeilingEdgePush(path: seq<Point>, x: Point)
    ensures HasCeilingEdge(path + [x])
       <==> HasCeilingEdge(path) || (path != [] && AlongCeiling(path[|path| - 1], x))
  {
    var more := path + [x];
    if n :| 0 <= n < |path| - 1 && AlongCeiling(path[n], path[n + 1]) {
      assert AlongCeiling(more[n], more[n + 1]);
    }
    if path != [] && AlongCeiling(path[|path| - 1], x) {
      assert AlongCeiling(more[|path| - 1], more[|path|]);
    }
    if n :| 0 <= n < |more| - 1 && AlongCeiling(more[n], more[n + 1]) && n + 1 < |path| {
      assert AlongCeiling(path[n], path[n + 1]);
    }
  }

  /** The edge runs along the ceiling, or comes to it from above or leaves it upwards. */
  predicate Touches(a: Point, b: Point) {
    a.y >= MERCATOR_LIMIT && b.y >= MERCATOR_LIMIT && (a.y == MERCATOR_LIMIT || b.y == MERCATOR_LIMIT)
  }

  ghost predicate TouchesBefore(ring: Ring, n: nat)
    requires n <= |ring|
  {
    exists k: nat :: k < n && Touches(Vertex(ring, k), Vertex(ring, k + 1))
  }

  /** Within the first `n` edges the walk is at or below the ceiling, then above it, then at or
      below it again. */
  ghost predicate ReturnsBefore(ring: Ring, n: nat)
    requires ring != [] && n <= |ring|
  {
    exists i: nat, j: nat, k: nat :: i < j < k <= n
      && Keeps(HIGH, Vertex(ring, i)) && !Keeps(HIGH, Vertex(ring, j)) && Keeps(HIGH, Vertex(ring, k))
  }

  ghost predicate CeilingBefore(ring: Ring, n: nat)
    requires ring != [] && n <= |ring|
  {
    TouchesBefore(ring, n) || ReturnsBefore(ring, n)
  }

  ghost predicate KeptBefore(ring: Ring, n: nat)
    requires ring != [] && n <= |ring|
  {
    exists i: nat :: i < n && Keeps(HIGH, Vertex(ring, i))
  }

  lemma TouchesOneMore(ring: Ring, n: nat)
    requires n < |ring|
    ensures TouchesBefore(ring, n + 1) <==> TouchesBefore(ring, n) || Touches(Vertex(ring, n), Vertex(ring, n + 1))
  {
  }

  /** One more edge completes a return exactly when it comes down and the walk has been down. */
  lemma ReturnsOneMore(ring: Ring, n: nat)
    requires n < |ring|
    ensures ReturnsBefore(ring, n + 1)
       <==> ReturnsBefore(ring, n)
            || (!Keeps(HIGH, Vertex(ring, n)) && Keeps(HIGH, Vertex(ring, n + 1)) && KeptBefore(ring, n))
  {
    if !Keeps(HIGH, Vertex(ring, n)) && Keeps(HIGH, Vertex(ring, n + 1)) && KeptBefore(ring, n) {
      var i: nat :| i < n && Keeps(HIGH, Vertex(ring, i));
    }
  }

  /** After `n` edges something emitted runs along the ceiling exactly when an edge walked
      touches it or the walk has returned from above it. */
  ghost predicate CeilingSoFar(ring: Ring, n: nat, out: seq<Point>)
    requires ring != [] && n <= |ring|
  {
    && (out != [] <==> KeptBefore(ring, n) || (n > 0 && Keeps(HIGH, Vertex(ring, n))))
    && if Keeps(HIGH, Vertex(ring, n)) then HasCeilingEdge(out + [Vertex(ring, n)]) <==> CeilingBefore(ring, n)
       else (HasCeilingEdge(out) <==> CeilingBefore(ring, n)) && (out != [] ==> OnBoundary(HIGH, out[|out| - 1]))
  }

  lemma KeptOneMore(ring: Ring, n: nat)
    requires n < |ring|
    ensures KeptBefore(ring, n + 1) <==> KeptBefore(ring, n) || Keeps(HIGH, Vertex(ring, n))
  {
  }

  lemma CeilingStaySide(ring: Ring, round: Rounding, n: nat, out: seq<Point>)
    requires n < |ring| && CeilingSoFar(ring, n, out)
    requires Keeps(HIGH, Vertex(ring, n)) == Keeps(HIGH, Vertex(ring, n + 1))
    ensures CeilingSoFar(ring, n + 1, out + Emit(HIGH, Vertex(ring, n), Vertex(ring, n + 1), round))
  {
    var a, b := Vertex(ring, n), Vertex(ring, n + 1);
    TouchesOneMore(ring, n);
    ReturnsOneMore(ring, n);
    KeptOneMore(ring, n);
    if Keeps(HIGH, a) {
      assert out + Emit(HIGH, a, b, round) == out + [a];
      CeilingEdgePush(out + [a], b);
    } else {
      assert out + Emit(HIGH, a, b, round) == out;
    }
  }

  lemma CeilingGoOut(ring: Ring, round: Rounding, n: nat, out: seq<Point>)
    requires Rounds(round) && n < |ring| && CeilingSoFar(ring, n, out)
    requires Keeps(HIGH, Vertex(ring, n)) && !Keeps(HIGH, Vertex(ring, n + 1))
    ensures CeilingSoFar(ring, n + 1, out + Emit(HIGH, Vertex(ring, n), Vertex(ring, n + 1), round))
  {
    var a, b := Vertex(ring, n), Vertex(ring, n + 1);
    var c := Cross(HIGH, a, b, round);
    CrossBetween(HIGH, a, b, round);
    TouchesOneMore(ring, n);
    ReturnsOneMore(ring, n);
    KeptOneMore(ring, n);
    assert out + Emit(HIGH, a, b, round) == (out + [a]) + [c];
    CeilingEdgePush(out + [a], c);
  }

  lemma CeilingComeIn(ring: Ring, round: Rounding, n: nat, out: seq<Point>)
    requires Rounds(round) && n < |ring| && CeilingSoFar(ring, n, out)
    requires !Keeps(HIGH, Vertex(ring, n)) && Keeps(HIGH, Vertex(ring, n + 1))
    ensures CeilingSoFar(ring, n + 1, out + Emit(HIGH, Vertex(ring, n), Vertex(ring, n + 1), round))
  {
    var a, b := Vertex(ring, n), Vertex(ring, n + 1);
    var c := Cross(HIGH, a, b, round);
    CrossBetween(HIGH, a, b, round);
    TouchesOneMore(ring, n);
    ReturnsOneMore(ring, n);
    KeptOneMore(ring, n);
    assert out + Emit(HIGH, a, b, round) == out + [c];
    CeilingEdgePush(out, c);
    CeilingEdgePush(out + [c], b);
  }

  lemma {:induction false} CeilingOneMore(ring: Ring, round: Rounding, n: nat)
    requires Rounds(round) && n < |ring| && CeilingSoFar(ring, n, Emitted(HIGH, ring, round, n))
    ensures CeilingSoFar(ring, n + 1, Emitted(HIGH, ring, round, n + 1))
  {
    var out := Emitted(HIGH, ring, round, n);
    if Keeps(HIGH, Vertex(ring, n)) == Keeps(HIGH, Vertex(ring, n + 1)) {
      CeilingStaySide(ring, round, n, out);
    } else if Keeps(HIGH, Vertex(ring, n)) {
      CeilingGoOut(ring, round, n, out);
    } else {
      CeilingComeIn(ring, round, n, out);
    }
  }

  lemma {:induction false} EmittedCeiling(ring: Ring, round: Rounding, n: nat)
    requires Rounds(round) && ring != [] && n <= |ring|
    ensures CeilingSoFar(ring, n, Emitted(HIGH, ring, round, n))
  {
    if n > 0 {
      EmittedCeiling(ring, round, n - 1);
      CeilingOneMore(ring, round, n - 1);
    }
  }

  ghost predicate CeilingDrawn(charted: Ring) {
    exists p, q :: DrawnEdge(charted, FLOOR, p, q) && AlongCeiling(p, q)
  }

  lemma CeilingDrawnIsEdge(ring: Ring)
    requires ring != []
    ensures CeilingDrawn(ring) <==> HasCeilingEdge(if MeetsFloor(ring, FLOOR) then Closed(ring) else ring)
  {
    var path := if MeetsFloor(ring, FLOOR) then Closed(ring) else ring;
    if i :| 0 <= i < |path| - 1 && AlongCeiling(path[i], path[i + 1]) {
      assert LineEdge(path, path[i], path[i + 1]);
      DrawnIsLineEdge(ring, path[i], path[i + 1]);
    }
    if p, q :| DrawnEdge(ring, FLOOR, p, q) && AlongCeiling(p, q) {
      DrawnIsLineEdge(ring, p, q);
      var i :| 0 <= i < |path| - 1 && path[i] == p && path[i + 1] == q;
      assert AlongCeiling(path[i], path[i + 1]);
    }
  }

  /** The coast of the outline runs along the ceiling: an edge of it touches the ceiling, the
      outline meets the floor and climbs over the ceiling, or it comes down from above and has
      been down before. */
  ghost predicate RunsAlongCeiling(outline: Ring) {
    || (exists k: nat :: OnCoast(outline, k) && Touches(Vertex(outline, k), Vertex(outline, k + 1)))
    || (MeetsFloor(outline, FLOOR) && Climbs(outline))
    || (outline != [] && ReturnsBefore(outline, |outline|))
  }

  lemma {:induction false} MixedHasChord(ring: Ring, round: Rounding, j: nat)
    requires Rounds(round) && j < |ring| && !Keeps(HIGH, ring[j]) && Clipped(HIGH, ring, round) != []
    ensures HasCeilingEdge(Closed(Clipped(HIGH, ring, round)))
  {
    var out := Clipped(HIGH, ring, round);
    EmittedCeiling(ring, round, |ring|);
    EmittedStart(HIGH, ring, round, |ring|);
    if Keeps(HIGH, ring[0]) {
      assert Keeps(HIGH, Vertex(ring, 0)) && !Keeps(HIGH, Vertex(ring, j)) && Keeps(HIGH, Vertex(ring, |ring|));
      assert ReturnsBefore(ring, |ring|);
    } else {
      CeilingEdgePush(out, out[0]);
    }
  }

  /** An outline that climbs has a chord, going around. */
  lemma {:induction false} ClimbHasChord(outline: Ring, round: Rounding)
    requires Rounds(round) && !Lost(outline) && Climbs(outline)
    ensures Charted(outline, round) != [] && HasCeilingEdge(Closed(Charted(outline, round)))
  {
    ChartedEmptyIff(outline, round);
    var once := Lowered(outline, round);
    var p :| p in outline && p.y > MERCATOR_LIMIT;
    KeptVertexSurvives(LOW, outline, round, p);
    var j :| 0 <= j < |once| && once[j] == p;
    MixedHasChord(once, round, j);
  }

  lemma {:induction false} ClosedFlat(ring: Ring, p: Point, q: Point)
    requires ring != [] && EdgeBefore(ring, |ring|, p, q) && AlongCeiling(p, q)
    ensures HasCeilingEdge(Closed(ring))
  {
    ClosedEdges(ring, p, q);
    var i :| 0 <= i < |Closed(ring)| - 1 && Closed(ring)[i] == p && Closed(ring)[i + 1] == q;
    assert AlongCeiling(Closed(ring)[i], Closed(ring)[i + 1]);
  }

  lemma {:induction false} FlatOfClosed(ring: Ring) returns (p: Point, q: Point)
    requires ring != [] && HasCeilingEdge(Closed(ring))
    ensures EdgeBefore(ring, |ring|, p, q) && AlongCeiling(p, q)
  {
    var i :| 0 <= i < |Closed(ring)| - 1 && AlongCeiling(Closed(ring)[i], Closed(ring)[i + 1]);
    p, q := Closed(ring)[i], Closed(ring)[i + 1];
    assert LineEdge(Closed(ring), p, q);
    ClosedEdges(ring, p, q);
  }

  /** One that stays below the ceiling has an edge along it exactly when the outline has. */
  lemma {:induction false} FlatIff(outline: Ring, round: Rounding)
    requires Rounds(round) && !Lost(outline) && !Climbs(outline)
    ensures HasCeilingEdge(Closed(Charted(outline, round))) <==> TouchesBefore(outline, |outline|)
  {
    ChartedEmptyIff(outline, round);
    ShoreSize(outline, round);
    if HasCeilingEdge(Closed(Lowered(outline, round))) { FlatTouches(outline, round); }
    if k: nat :| k < |outline| && Touches(Vertex(outline, k), Vertex(outline, k + 1)) {
      TouchIsFlat(outline, round, k);
    }
  }

  lemma {:induction false} FlatTouches(outline: Ring, round: Rounding)
    requires Rounds(round) && !Lost(outline) && Lowered(outline, round) != []
    requires HasCeilingEdge(Closed(Lowered(outline, round)))
    ensures TouchesBefore(outline, |outline|)
  {
    var p, q := FlatOfClosed(Lowered(outline, round));
    LoweredEdges(outline, round, p, q);
    var k: nat :| k < |outline| && Vertex(outline, k) == p && Vertex(outline, k + 1) == q;
    assert Touches(Vertex(outline, k), Vertex(outline, k + 1));
  }

  lemma {:induction false} TouchIsFlat(outline: Ring, round: Rounding, k: nat)
    requires Rounds(round) && !Lost(outline) && !Climbs(outline)
    requires k < |outline| && Touches(Vertex(outline, k), Vertex(outline, k + 1))
    ensures HasCeilingEdge(Closed(Lowered(outline, round)))
  {
    var p, q := Vertex(outline, k), Vertex(outline, k + 1);
    assert p in outline && q in outline;
    assert EdgeBefore(outline, |outline|, p, q);
    LoweredEdges(outline, round, p, q);
    ClosedFlat(Lowered(outline, round), p, q);
  }

  /** Going along the clipped ring from its first point to its last: one that begins above the
      ceiling runs along it as the whole walk says. */
  lemma HighStartCeilingIff(ring: Ring, round: Rounding)
    requires Rounds(round) && Clipped(HIGH, ring, round) != [] && ring != [] && !Keeps(HIGH, ring[0])
    ensures HasCeilingEdge(Clipped(HIGH, ring, round)) <==> CeilingBefore(ring, |ring|)
  {
    EmittedCeiling(ring, round, |ring|);
  }

  /** One that begins below does as the walk up to its last vertex says, or comes down on the
      closing edge. */
  lemma LowStartCeilingIff(ring: Ring, round: Rounding)
    requires Rounds(round) && Clipped(HIGH, ring, round) != [] && |ring| > 1 && Keeps(HIGH, ring[0])
    ensures HasCeilingEdge(Clipped(HIGH, ring, round))
       <==> TouchesBefore(ring, |ring| - 1) || ReturnsBefore(ring, |ring|)
  {
    var n := |ring| - 1;
    assert Keeps(HIGH, Vertex(ring, 0)) && KeptBefore(ring, n);
    ReturnsOneMore(ring, n);
    EmittedCeiling(ring, round, n);
    LowStartLastEdge(ring, round, Emitted(HIGH, ring, round, n));
  }

  lemma LowStartLastEdge(ring: Ring, round: Rounding, out: seq<Point>)
    requires Rounds(round) && |ring| > 1 && Keeps(HIGH, ring[0]) && CeilingSoFar(ring, |ring| - 1, out)
    requires KeptBefore(ring, |ring| - 1)
    ensures HasCeilingEdge(out + Emit(HIGH, Vertex(ring, |ring| - 1), ring[0], round))
       <==> !Keeps(HIGH, Vertex(ring, |ring| - 1)) || CeilingBefore(ring, |ring| - 1)
  {
    var a, b := Vertex(ring, |ring| - 1), ring[0];
    if Keeps(HIGH, a) {
      assert out + Emit(HIGH, a, b, round) == out + [a];
    } else {
      var c := Cross(HIGH, a, b, round);
      CrossBetween(HIGH, a, b, round);
      assert out + Emit(HIGH, a, b, round) == out + [c];
      CeilingEdgePush(out, c);
    }
  }

  lemma TouchesOnCoast(outline: Ring)
    requires outline != []
    ensures var n := if MeetsFloor(outline, FLOOR) || !Keeps(HIGH, outline[0]) then |outline| else |outline| - 1;
      TouchesBefore(outline, n)
      <==> exists k: nat :: OnCoast(outline, k) && Touches(Vertex(outline, k), Vertex(outline, k + 1))
  {
    var n := if MeetsFloor(outline, FLOOR) || !Keeps(HIGH, outline[0]) then |outline| else |outline| - 1;
    if k: nat :| k < n && Touches(Vertex(outline, k), Vertex(outline, k + 1)) { assert OnCoast(outline, k); }
  }

  lemma ReturnsClimbs(outline: Ring)
    requires outline != [] && ReturnsBefore(outline, |outline|)
    ensures Climbs(outline)
  {
    var i: nat, j: nat, k: nat :| i < j < k <= |outline|
      && Keeps(HIGH, Vertex(outline, i)) && !Keeps(HIGH, Vertex(outline, j)) && Keeps(HIGH, Vertex(outline, k));
    assert Vertex(outline, j) in outline;
  }

  /** A drawn edge runs along the ceiling exactly when the outline says so. */
  lemma CeilingDrawnIff(outline: Ring, round: Rounding)
    requires Rounds(round) && !Lost(outline)
    ensures CeilingDrawn(Charted(outline, round)) <==> RunsAlongCeiling(outline)
  {
    ChartedEmptyIff(outline, round);
    FloorMetIff(outline, round);
    CeilingDrawnIsEdge(Charted(outline, round));
    TouchesOnCoast(outline);
    if !MeetsFloor(outline, FLOOR) {
      DryIsNotLowered(outline, round);
      if Keeps(HIGH, outline[0]) { LowStartCeilingIff(outline, round); } else { HighStartCeilingIff(outline, round); }
    } else if Climbs(outline) {
      ClimbHasChord(outline, round);
    } else {
      FlatIff(outline, round);
      if ReturnsBefore(outline, |outline|) {
        ReturnsClimbs(outline);
        assert false;
      }
    }
  }

  // ---- When a coast is genuine ----------------------------------------------------------------

  /** The coast is one stretch of the clipped ring, none of its edges runs along the ceiling, and
      each lies on an edge of the outline. */
  ghost predicate GenuineCoast(outline: Ring, round: Rounding, line: Ring) {
    && OneStretch(line, Charted(outline, round))
    && forall p, q :: LineEdge(line, p, q) ==> !AlongCeiling(p, q) && Genuine(outline, round, p, q)
  }

  lemma CoastIsDrawn(outline: Ring, round: Rounding, p: Point, q: Point)
    requires Rounds(round) && !Lost(outline) && CoastFor(Charted(outline, round)).Ok?
    requires Leaves(outline, FLOOR) <= 1
    ensures LineEdge(CoastFor(Charted(outline, round)).value, p, q)
       <==> DrawnEdge(Charted(outline, round), FLOOR, p, q)
  {
    ClippingKeepsLeaves(outline, round);
    CoastDrawsShore(Charted(outline, round), FLOOR, p, q);
  }

  lemma DrawnIsGenuine(outline: Ring, round: Rounding, p: Point, q: Point)
    requires Rounds(round) && !Lost(outline) && DrawnEdge(Charted(outline, round), FLOOR, p, q)
    ensures AlongCeiling(p, q) || Genuine(outline, round, p, q)
  {
    var charted := Charted(outline, round);
    var i: nat :| i < |charted| && charted[i] == p && Next(charted, i) == q;
    ChartedEdges(outline, round, i);
  }

  /** That holds exactly when the outline leaves the floor at most once and does not run along
      the ceiling. */
  lemma CoastGenuineIff(outline: Ring, round: Rounding)
    requires Rounds(round) && !Lost(outline) && CoastFor(Charted(outline, round)).Ok?
    ensures GenuineCoast(outline, round, CoastFor(Charted(outline, round)).value)
       <==> Leaves(outline, FLOOR) <= 1 && !RunsAlongCeiling(outline)
  {
    var charted := Charted(outline, round);
    ClippingKeepsLeaves(outline, round);
    CoastIsOneStretchIff(charted, FLOOR);
    CeilingDrawnIff(outline, round);
    if Leaves(outline, FLOOR) <= 1 {
      forall p, q
        ensures LineEdge(CoastFor(charted).value, p, q) <==> DrawnEdge(charted, FLOOR, p, q)
        ensures DrawnEdge(charted, FLOOR, p, q) ==> AlongCeiling(p, q) || Genuine(outline, round, p, q)
      {
        CoastIsDrawn(outline, round, p, q);
        if DrawnEdge(charted, FLOOR, p, q) { DrawnIsGenuine(outline, round, p, q); }
      }
    }
  }

  /** An outline below the ceiling has a genuine coast exactly when it leaves the floor at
      most once. */
  lemma LowCoastGenuineIff(outline: Ring, round: Rounding)
    requires Rounds(round) && !Lost(outline) && CoastFor(Charted(outline, round)).Ok?
    requires AllBelow(outline, MERCATOR_LIMIT)
    ensures GenuineCoast(outline, round, CoastFor(Charted(outline, round)).value) <==> Leaves(outline, FLOOR) <= 1
  {
    CoastGenuineIff(outline, round);
    forall k: nat | k < |outline| ensures !Touches(Vertex(outline, k), Vertex(outline, k + 1)) {
      assert Vertex(outline, k) in outline && Vertex(outline, k + 1) in outline;
    }
    if ReturnsBefore(outline, |outline|) { ReturnsClimbs(outline); }
  }

  // ---- Along the antimeridian ----------------------------------------------------------------

  predicate AlongAntimeridian(p: Point, q: Point) {
    p.x == q.x == 180000 || p.x == q.x == -180000
  }

  /** Nothing treats the antimeridian: an outline that need not be clipped is its own coast,
      seam edges included. */
  lemma UnclippedCoast(outline: Ring, round: Rounding)
    requires Rounds(round) && |outline| >= 3 && AllAbove(outline, FLOOR) && !Climbs(outline)
    ensures Charted(outline, round) == outline && CoastFor(outline) == Ok(outline)
  {
    ClippedBetweenFits(Latitude, outline, FLOOR, MERCATOR_LIMIT, round, Longitude, 0, 0);
  }

  const CUT_AT_180: Ring := [
    Point(175000, 70000), Point(180000, 70000), Point(180000, 65000), Point(175000, 65000), Point(175000, 70000)]

  /** A country cut at the antimeridian: the seam is an edge of its coast. */
  lemma SeamIsDrawn(round: Rounding)
    requires Rounds(round)
    ensures CoastFor(Charted(CUT_AT_180, round)) == Ok(CUT_AT_180)
    ensures LineEdge(CUT_AT_180, CUT_AT_180[1], CUT_AT_180[2]) && AlongAntimeridian(CUT_AT_180[1], CUT_AT_180[2])
  {
    UnclippedCoast(CUT_AT_180, round);
  }

  /** The outline has a seam: what its coast keeps of one of its edges runs along the
      antimeridian. */
  ghost predicate HasSeam(outline: Ring, round: Rounding) {
    exists p, q :: CoastEdge(outline, round, p, q) && AlongAntimeridian(p, q)
  }

  lemma CoastEdgeAlongCeiling(outline: Ring, round: Rounding, p: Point, q: Point)
    requires CoastEdge(outline, round, p, q) && AlongCeiling(p, q)
    ensures RunsAlongCeiling(outline)
  {
    var k: nat :| OnCoast(outline, k) && PieceAt(HIGH, outline, round, k, p, q);
    assert Touches(Vertex(outline, k), Vertex(outline, k + 1));
  }

  ghost predicate HasSeamEdge(line: Ring) {
    exists p, q :: LineEdge(line, p, q) && AlongAntimeridian(p, q)
  }

  /** Nothing artificial enters the coast - it is genuine and has no seam - exactly when the
      outline leaves the floor at most once, does not run along the ceiling, and has no seam. */
  lemma NothingArtificialIff(outline: Ring, round: Rounding)
    requires Rounds(round) && !Lost(outline) && CoastFor(Charted(outline, round)).Ok?
    ensures GenuineCoast(outline, round, CoastFor(Charted(outline, round)).value)
            && !HasSeamEdge(CoastFor(Charted(outline, round)).value)
       <==> Leaves(outline, FLOOR) <= 1 && !RunsAlongCeiling(outline) && !HasSeam(outline, round)
  {
    CoastGenuineIff(outline, round);
    CeilingDrawnIff(outline, round);
    var line, charted := CoastFor(Charted(outline, round)).value, Charted(outline, round);
    if Leaves(outline, FLOOR) <= 1 && !RunsAlongCeiling(outline) {
      forall p, q ensures LineEdge(line, p, q) <==> CoastEdge(outline, round, p, q) {
        CoastIsDrawn(outline, round, p, q);
        if AlongCeiling(p, q) {
          assert !DrawnEdge(charted, FLOOR, p, q);
          if CoastEdge(outline, round, p, q) { CoastEdgeAlongCeiling(outline, round, p, q); }
        } else {
          DrawnIffCoastEdge(outline, round, p, q);
        }
      }
    }
  }

  /** Below the ceiling clipping keeps exactly the edges off the floor. */
  lemma LowDrawnIff(outline: Ring, round: Rounding, p: Point, q: Point)
    requires Rounds(round) && !Lost(outline) && !Climbs(outline)
    ensures DrawnEdge(Charted(outline, round), FLOOR, p, q) <==> DrawnEdge(outline, FLOOR, p, q)
  {
    ChartedEmptyIff(outline, round);
    ShoreSize(outline, round);
    FloorMetIff(outline, round);
    if !MeetsFloor(outline, FLOOR) {
      DryIsNotLowered(outline, round);
    } else if Off(p) && Off(q) {
      LoweredEdges(outline, round, p, q);
      DrawnIsLineEdge(Charted(outline, round), p, q);
      DrawnIsLineEdge(outline, p, q);
      ClosedEdges(Charted(outline, round), p, q);
      ClosedEdges(outline, p, q);
    }
  }

  /** So the coast of an outline that does not climb has a seam edge exactly when the outline
      has one off the floor. */
  lemma LowSeamIff(outline: Ring, round: Rounding)
    requires Rounds(round) && !Lost(outline) && !Climbs(outline) && CoastFor(Charted(outline, round)).Ok?
    requires Leaves(outline, FLOOR) <= 1
    ensures HasSeamEdge(CoastFor(Charted(outline, round)).value)
       <==> exists p, q :: DrawnEdge(outline, FLOOR, p, q) && AlongAntimeridian(p, q)
  {
    forall p, q
      ensures LineEdge(CoastFor(Charted(outline, round)).value, p, q) <==> DrawnEdge(outline, FLOOR, p, q)
    {
      CoastIsDrawn(outline, round, p, q);
      LowDrawnIff(outline, round, p, q);
    }
  }

  // ---- Coasts that are not coasts --------------------------------------------------------------

  const OVER_THE_POLE: Ring := [
    Point(0, 0), Point(1000, 90000), Point(3000, 90000), Point(4000, 0), Point(3000, -90000), Point(1000, -90000)]

  /** An outline over the pole leaves the floor once, and its coast holds the ceiling chord. */
  lemma PoleChordIsDrawn(round: Rounding)
    requires Rounds(round)
    ensures !Lost(OVER_THE_POLE) && Leaves(OVER_THE_POLE, FLOOR) == 1
    ensures CoastFor(Charted(OVER_THE_POLE, round)).Ok?
    ensures !GenuineCoast(OVER_THE_POLE, round, CoastFor(Charted(OVER_THE_POLE, round)).value)
  {
    var s := OVER_THE_POLE;
    assert s[0] in s && s[1] in s && s[4] in s;
    RisesOf7(s[0], s[1], s[2], s[3], s[4], s[5], s[0]);
    assert Closed(s) == [s[0], s[1], s[2], s[3], s[4], s[5], s[0]];
    CoastExists(s, round);
    CoastGenuineIff(s, round);
  }

  lemma RisesOf7(a: Point, b: Point, c: Point, d: Point, e: Point, f: Point, g: Point)
    requires Off(a) && Off(b) && Off(c) && Off(d) && !Off(e) && !Off(f) && Off(g)
    ensures Rises([a, b, c, d, e, f, g], FLOOR) == 1
  {
    assert [a, b, c, d, e, f, g] == [a] + [b] + [c] + [d] + [e] + [f] + [g];
    RisesPush([a], b);
    RisesPush([a] + [b], c);
    RisesPush([a] + [b] + [c], d);
    RisesPush([a] + [b] + [c] + [d], e);
    RisesPush([a] + [b] + [c] + [d] + [e], f);
    RisesPush([a] + [b] + [c] + [d] + [e] + [f], g);
  }

  const TWO_DIPS: Ring := [
    Point(0, -80000), Point(0, -90000), Point(1000, -90000), Point(1000, -80000),
    Point(2000, -80000), Point(2000, -90000), Point(3000, -90000), Point(3000, -80000)]

  /** An outline that dips below the floor twice: its coast joins the two shores by an edge
      from (2, -80) to (3, -80) that no one drew. */
  lemma TwoDipsJoinShores(round: Rounding)
    requires Rounds(round)
    ensures !Lost(TWO_DIPS) && Leaves(TWO_DIPS, FLOOR) == 2
    ensures CoastFor(Charted(TWO_DIPS, round))
         == Ok([Point(1000, -80000), Point(2000, -80000), Point(3000, -80000), Point(0, -80000)])
    ensures !GenuineCoast(TWO_DIPS, round, CoastFor(Charted(TWO_DIPS, round)).value)
  {
    var s := TWO_DIPS;
    assert s[0] in s && s[1] in s;
    RisesOf9(s[0], s[1], s[2], s[3], s[4], s[5], s[6], s[7], s[0]);
    assert Closed(s) == [s[0], s[1], s[2], s[3], s[4], s[5], s[6], s[7], s[0]];
    TwoDipsCharted(round);
    var c, d, e, f := Point(0, FLOOR), Point(1000, FLOOR), Point(2000, FLOOR), Point(3000, FLOOR);
    CoastOf8(s[0], c, d, s[3], s[4], e, f, s[7]);
    LowCoastGenuineIff(s, round);
  }

  lemma CoastOf8(a: Point, b: Point, c: Point, d: Point, e: Point, f: Point, g: Point, h: Point)
    requires Off(a) && !Off(b) && !Off(c) && Off(d) && Off(e) && !Off(f) && !Off(g) && Off(h)
    ensures CoastFor([a, b, c, d, e, f, g, h]) == Ok([d, e, h, a])
  {
    var ring := [a, b, c, d, e, f, g, h];
    assert b in ring;
    assert FirstLeaving(ring, FLOOR, 2) == 2 && FirstLeaving(ring, FLOOR, 0) == 2;
    assert Rotated(ring, 3) == [d, e, f, g, h, a, b, c];
    TwoShores(d, e, f, g, h, a, b, c);
  }

  lemma TwoShores(a: Point, b: Point, c: Point, d: Point, e: Point, f: Point, g: Point, h: Point)
    requires Off(a) && Off(b) && !Off(c) && !Off(d) && Off(e) && Off(f) && !Off(g) && !Off(h)
    ensures Shore([a, b, c, d, e, f, g, h]) == [a, b, e, f]
  {
    assert [a, b, c, d, e, f, g, h] == [a, b, c, d] + [e, f, g, h];
    ShoreConcat([a, b, c, d], [e, f, g, h]);
    OneShore(a, b, c, d);
    OneShore(e, f, g, h);
  }

  lemma OneShore(a: Point, b: Point, c: Point, d: Point)
    requires Off(a) && Off(b) && !Off(c) && !Off(d)
    ensures Shore([a, b, c, d]) == [a, b]
  {
    assert [a, b, c, d] == [a] + [b] + [c] + [d];
    ShoreConcat([a] + [b] + [c], [d]);
    ShoreConcat([a] + [b], [c]);
    ShoreConcat([a], [b]);
    assert forall p: Point :: [p][1..] == [];
  }

  lemma RisesOf9(a: Point, b: Point, c: Point, d: Point, e: Point, f: Point, g: Point, h: Point, i: Point)
    requires Off(a) && !Off(b) && !Off(c) && Off(d) && Off(e) && !Off(f) && !Off(g) && Off(h) && Off(i)
    ensures Rises([a, b, c, d, e, f, g, h, i], FLOOR) == 2
  {
    assert [a, b, c, d, e, f, g, h, i] == [a] + [b] + [c] + [d] + [e] + [f] + [g] + [h] + [i];
    RisesPush([a], b);
    RisesPush([a] + [b], c);
    RisesPush([a] + [b] + [c], d);
    RisesPush([a] + [b] + [c] + [d], e);
    RisesPush([a] + [b] + [c] + [d] + [e], f);
    RisesPush([a] + [b] + [c] + [d] + [e] + [f], g);
    RisesPush([a] + [b] + [c] + [d] + [e] + [f] + [g], h);
    RisesPush([a] + [b] + [c] + [d] + [e] + [f] + [g] + [h], i);
  }

  /** An edge along a meridian meets the floor on that meridian. */
  lemma MeridianCrossing(a: Point, b: Point, round: Rounding)
    requires Rounds(round) && a.x == b.x && Keeps(LOW, a) != Keeps(LOW, b)
    ensures Cross(LOW, a, b, round) == Point(a.x, FLOOR)
  {
    CrossBetween(LOW, a, b, round);
  }

  lemma TwoDipsCharted(round: Rounding)
    requires Rounds(round)
    ensures Charted(TWO_DIPS, round)
         == [Point(0, -80000), Point(0, FLOOR), Point(1000, FLOOR), Point(1000, -80000),
             Point(2000, -80000), Point(2000, FLOOR), Point(3000, FLOOR), Point(3000, -80000)]
  {
    var s := TWO_DIPS;
    assert s[0] in s && s[1] in s;
    MeridianCrossing(s[0], s[1], round);
    MeridianCrossing(s[2], s[3], round);
    MeridianCrossing(s[4], s[5], round);
    MeridianCrossing(s[6], s[7], round);
    var c, d, e, f := Point(0, FLOOR), Point(1000, FLOOR), Point(2000, FLOOR), Point(3000, FLOOR);
    assert Emitted(LOW, s, round, 1) == [s[0], c];
    assert Emitted(LOW, s, round, 2) == [s[0], c];
    assert Emitted(LOW, s, round, 3) == [s[0], c, d];
    assert Emitted(LOW, s, round, 4) == [s[0], c, d, s[3]];
    assert Emitted(LOW, s, round, 5) == [s[0], c, d, s[3], s[4], e];
    assert Emitted(LOW, s, round, 6) == [s[0], c, d, s[3], s[4], e];
    assert Emitted(LOW, s, round, 7) == [s[0], c, d, s[3], s[4], e, f];
    assert Emitted(LOW, s, round, 8) == [s[0], c, d, s[3], s[4], e, f, s[7]];
    ShoreSize(s, round);
  }

  /** There is a coast, however short, unless the ring lies on the floor. */
  lemma CoastExists(outline: Ring, round: Rounding)
    requires Rounds(round) && !Lost(outline)
    ensures CoastFor(Charted(outline, round)).Err? <==> !Climbs(outline) && Shore(outline) == []
  {
    ChartedEmptyIff(outline, round);
    ShoreSize(outline, round);
    CoastMeaning(Charted(outline, round), MeetsFloor(Charted(outline, round), FLOOR), FLOOR);
    var charted := Charted(outline, round);
    assert charted[0] in charted;
    NoShoreIff(charted);
  }

  lemma NoShoreIff(ring: Ring)
    ensures Shore(ring) == [] <==> forall p :: p in ring ==> OnFloor(p, FLOOR)
  {
    if forall p :: p in ring ==> OnFloor(p, FLOOR) {
      FilterNone(ring, (p: Point) => !OnFloor(p, FLOOR));
    } else {
      var p :| p in ring && !OnFloor(p, FLOOR);
      assert p in Shore(ring);
    }
  }
}
