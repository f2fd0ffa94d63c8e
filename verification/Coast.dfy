/** The coastline of a clipped ring: opened where the clip ran along the floor. */
module Coast {
  import opened Geometry
  import opened Types
  import opened Sorting

  predicate OnFloor(p: Point, floor: int) {
    p.y <= floor
  }

  /** Vertex `i` is on the floor and the next one, around the ring, is off it. */
  predicate LeavesFloor(ring: Ring, floor: int, i: int)
    requires 0 <= i < |ring|
  {
    OnFloor(ring[i], floor) && !OnFloor(if i + 1 == |ring| then ring[0] else ring[i + 1], floor)
  }

  function Rotated(ring: Ring, start: nat): Ring
    requires start <= |ring|
  {
    ring[start..] + ring[..start]
  }

  function OffFloor(ring: Ring, floor: int): Ring {
    Filter(ring, (p: Point) => !OnFloor(p, floor))
  }

  datatype CoastError = NoBoundary   // `next` finds no vertex that leaves the floor

  /** The first vertex from `i` on that leaves the floor, or the length of the ring. */
  function FirstLeaving(ring: Ring, floor: int, i: nat): (at: nat)
    requires i <= |ring|
    ensures i <= at <= |ring|
    ensures at < |ring| ==> LeavesFloor(ring, floor, at)
    ensures forall j :: i <= j < at ==> !LeavesFloor(ring, floor, j)
    decreases |ring| - i
  {
    if i == |ring| || LeavesFloor(ring, floor, i) then i else FirstLeaving(ring, floor, i + 1)
  }

  function CoastOf(ring: Ring, wasClipped: bool, floor: int): Result<Ring, CoastError> {
    if !wasClipped || forall p :: p in ring ==> !OnFloor(p, floor) then Ok(ring)
    else
      var boundary := FirstLeaving(ring, floor, 0);
      if boundary == |ring| then Err(NoBoundary) else Ok(OffFloor(Rotated(ring, boundary + 1), floor))
  }

  method Coastline(ring: Ring, wasClipped: bool, floor: int) returns (r: Result<Ring, CoastError>)
    ensures r == CoastOf(ring, wasClipped, floor)
  {
    if !wasClipped {
      return Ok(ring);
    }
    if forall p :: p in ring ==> !OnFloor(p, floor) {
      return Ok(ring);
    }
    var boundary := 0;
    while boundary < |ring| && !LeavesFloor(ring, floor, boundary)
      invariant boundary <= |ring|
      invariant FirstLeaving(ring, floor, boundary) == FirstLeaving(ring, floor, 0)
    {
      boundary := boundary + 1;
    }
    if boundary == |ring| {
      return Err(NoBoundary);
    }
    return Ok(OffFloor(Rotated(ring, boundary + 1), floor));
  }

  /** A ring that was not clipped is its own coast. A clipped one loses exactly its floor
      vertices; and the coast has no beginning exactly when it has no other vertices. */
  lemma CoastMeaning(ring: Ring, wasClipped: bool, floor: int)
    ensures var r := CoastOf(ring, wasClipped, floor);
      && (!wasClipped ==> r == Ok(ring))
      && (r.Err? <==> wasClipped && ring != [] && forall p :: p in ring ==> OnFloor(p, floor))
      && (wasClipped && r.Ok? ==> forall p :: p in r.value <==> p in ring && !OnFloor(p, floor))
  {
    assert ring != [] ==> ring[0] in ring;
    var boundary := FirstLeaving(ring, floor, 0);
    if wasClipped && exists p :: p in ring && OnFloor(p, floor) {
      if boundary == |ring| {
        NeverLeaving(ring, floor);
      } else {
        LeavingIsMixed(ring, floor, boundary);
        var turned := Rotated(ring, boundary + 1);
        assert ring == ring[..boundary + 1] + ring[boundary + 1..];
        assert forall p :: p in turned <==> p in ring;
      }
    }
  }

  lemma LeavingIsMixed(ring: Ring, floor: int, i: nat)
    requires i < |ring| && LeavesFloor(ring, floor, i)
    ensures exists p :: p in ring && !OnFloor(p, floor)
  {
    assert ring[0] in ring;
    assert i + 1 < |ring| ==> ring[i + 1] in ring;
  }

  lemma NeverLeaving(ring: Ring, floor: int)
    requires forall i :: 0 <= i < |ring| ==> !LeavesFloor(ring, floor, i)
    requires exists p :: p in ring && OnFloor(p, floor)
    ensures forall p :: p in ring ==> OnFloor(p, floor)
  {
    var p :| p in ring && OnFloor(p, floor);
    var i :| 0 <= i < |ring| && ring[i] == p;
    StaysOnFloor(ring, floor, i, |ring| - 1);
    assert !LeavesFloor(ring, floor, |ring| - 1);
    assert OnFloor(ring[0], floor);
    forall q | q in ring ensures OnFloor(q, floor) {
      var j :| 0 <= j < |ring| && ring[j] == q;
      StaysOnFloor(ring, floor, 0, j);
    }
  }

  lemma {:induction false} StaysOnFloor(ring: Ring, floor: int, i: nat, j: nat)
    requires i <= j < |ring| && OnFloor(ring[i], floor)
    requires forall k :: 0 <= k < |ring| ==> !LeavesFloor(ring, floor, k)
    ensures OnFloor(ring[j], floor)
    decreases j - i
  {
    if i < j {
      assert !LeavesFloor(ring, floor, i);
      StaysOnFloor(ring, floor, i + 1, j);
    }
  }

  // ---- Is the coast a coast? ------------------------------------------------------------

  /** The off-floor vertices of `s` are its first ones. */
  ghost predicate ShoreFirst(s: Ring, floor: int) {
    forall i, j :: 0 <= i < j < |s| && OnFloor(s[i], floor) ==> OnFloor(s[j], floor)
  }

  lemma {:induction false} OffFloorIsPrefixIff(s: Ring, floor: int)
    ensures OffFloor(s, floor) <= s <==> ShoreFirst(s, floor)
  {
    if s != [] {
      OffFloorIsPrefixIff(s[1..], floor);
      if OnFloor(s[0], floor) {
        if OffFloor(s, floor) != [] {
          var p := OffFloor(s, floor)[0];
          assert p in OffFloor(s, floor);
          var j :| 0 <= j < |s| && s[j] == p;
          assert !ShoreFirst(s, floor);
        } else {
          forall j | 0 <= j < |s| ensures OnFloor(s[j], floor) {
            assert s[j] in s && s[j] !in OffFloor(s, floor);
          }
        }
      } else {
        PrefixTail(s, floor);
        ShoreTail(s, floor);
      }
    }
  }

  lemma PrefixTail(s: Ring, floor: int)
    requires s != [] && !OnFloor(s[0], floor)
    ensures OffFloor(s, floor) <= s <==> OffFloor(s[1..], floor) <= s[1..]
  {
    assert OffFloor(s, floor) == [s[0]] + OffFloor(s[1..], floor);
    assert s == [s[0]] + s[1..];
    assert OffFloor(s, floor) <= s ==> OffFloor(s, floor)[1..] <= s[1..];
  }

  lemma ShoreTail(s: Ring, floor: int)
    requires s != [] && !OnFloor(s[0], floor)
    ensures ShoreFirst(s, floor) <==> ShoreFirst(s[1..], floor)
  {
    if ShoreFirst(s[1..], floor) {
      forall i, j | 0 <= i < j < |s| && OnFloor(s[i], floor) ensures OnFloor(s[j], floor) {
        assert s[1..][i - 1] == s[i] && s[1..][j - 1] == s[j];
      }
    }
  }

  // ---- How often a ring leaves the floor ------------------------------------------------

  /** How often consecutive points of `path` go from the floor to off it. */
  function Rises(path: seq<Point>, floor: int): nat {
    if |path| < 2 then 0
    else
      var n := |path| - 1;
      Rises(path[..n], floor) + if OnFloor(path[n - 1], floor) && !OnFloor(path[n], floor) then 1 else 0
  }

  function Closed(ring: Ring): seq<Point> {
    if ring == [] then [] else ring + [ring[0]]
  }

  /** How often the ring leaves the floor, going around once. */
  function Leaves(ring: Ring, floor: int): nat {
    Rises(Closed(ring), floor)
  }

  predicate RisesAt(path: seq<Point>, floor: int, i: int) {
    0 <= i < |path| - 1 && OnFloor(path[i], floor) && !OnFloor(path[i + 1], floor)
  }

  lemma {:induction false} NeverRisesIff(path: seq<Point>, floor: int)
    ensures Rises(path, floor) == 0 <==> forall i :: !RisesAt(path, floor, i)
  {
    if |path| >= 2 {
      var front := path[..|path| - 1];
      NeverRisesIff(front, floor);
      forall i | 0 <= i < |front| - 1 ensures RisesAt(front, floor, i) == RisesAt(path, floor, i) {}
      assert RisesAt(path, floor, |path| - 2)
        <==> OnFloor(path[|path| - 2], floor) && !OnFloor(path[|path| - 1], floor);
    }
  }

  lemma {:induction false} RisesOnceIff(path: seq<Point>, floor: int)
    ensures Rises(path, floor) <= 1
       <==> forall i, j :: RisesAt(path, floor, i) && RisesAt(path, floor, j) ==> i == j
  {
    if |path| >= 2 {
      var front := path[..|path| - 1];
      NeverRisesIff(front, floor);
      RisesOnceIff(front, floor);
      forall i | 0 <= i < |front| - 1 ensures RisesAt(front, floor, i) == RisesAt(path, floor, i) {}
      assert RisesAt(path, floor, |path| - 2)
        <==> OnFloor(path[|path| - 2], floor) && !OnFloor(path[|path| - 1], floor);
    }
  }

  /** The ring leaves the floor at vertex `i` and nowhere else. */
  ghost predicate LeavesOnlyAt(ring: Ring, floor: int, at: int) {
    forall i :: 0 <= i < |ring| && LeavesFloor(ring, floor, i) ==> i == at
  }

  lemma LeavesOnceIff(ring: Ring, floor: int, at: nat)
    requires at < |ring| && LeavesFloor(ring, floor, at)
    ensures Leaves(ring, floor) <= 1 <==> LeavesOnlyAt(ring, floor, at)
  {
    RisesOnceIff(Closed(ring), floor);
    forall i | 0 <= i < |ring| ensures RisesAt(Closed(ring), floor, i) == LeavesFloor(ring, floor, i) {}
    assert RisesAt(Closed(ring), floor, at);
    if LeavesOnlyAt(ring, floor, at) {
      forall i, j | RisesAt(Closed(ring), floor, i) && RisesAt(Closed(ring), floor, j) ensures i == j {
        assert LeavesFloor(ring, floor, i) && LeavesFloor(ring, floor, j);
      }
    } else {
      var i :| 0 <= i < |ring| && LeavesFloor(ring, floor, i) && i != at;
      assert RisesAt(Closed(ring), floor, i);
    }
  }

  // ---- Is the coast one stretch? ---------------------------------------------------------

  /** `line` is an unbroken stretch of the ring, starting anywhere on it. */
  ghost predicate OneStretch(line: Ring, ring: Ring) {
    exists start :: 0 <= start <= |ring| && line <= Rotated(ring, start)
  }

  /** Turned to begin right behind the floor, a ring that leaves it once has its shore first. */
  lemma TurnedShoreFirst(ring: Ring, floor: int, boundary: nat)
    requires boundary < |ring| && LeavesOnlyAt(ring, floor, boundary)
    ensures ShoreFirst(Rotated(ring, boundary + 1), floor)
    ensures OffFloor(Rotated(ring, boundary + 1), floor) <= Rotated(ring, boundary + 1)
  {
    var turned := Rotated(ring, boundary + 1);
    forall k, j | 0 <= k < j < |turned| && OnFloor(turned[k], floor) ensures OnFloor(turned[j], floor) {
      TurnedStaysOnFloor(ring, floor, boundary, k, j);
    }
    OffFloorIsPrefixIff(turned, floor);
  }

  /** A stretch that is the whole shore leaves nothing but floor behind it. */
  lemma ShoreThenFloor(ring: Ring, floor: int, first: nat, start: nat, k: nat)
    requires first <= |ring| && start <= |ring| && k < |ring|
    requires OffFloor(Rotated(ring, first), floor) <= Rotated(ring, start)
    ensures OnFloor(Rotated(ring, start)[k], floor) <==> k >= |OffFloor(Rotated(ring, first), floor)|
  {
    var line, other := OffFloor(Rotated(ring, first), floor), Rotated(ring, start);
    var off := (p: Point) => !OnFloor(p, floor);
    CoastLosesNoShore(ring, floor, first);
    CoastLosesNoShore(ring, floor, start);
    assert |line| == |multiset(line)| == |multiset(OffFloor(other, floor))| == |OffFloor(other, floor)|;
    assert other == line + other[|line|..];
    FilterConcat(line, other[|line|..], off);
    FilterAll(line, off);
    assert OffFloor(other[|line|..], floor) == [];
    if k >= |line| {
      assert other[|line|..][k - |line|] == other[k];
      assert other[k] in other[|line|..];
    } else {
      assert line[k] in line && line[k] == other[k];
    }
  }

  lemma WholeShoreLeavesOnce(ring: Ring, floor: int, first: nat, start: nat, i: nat)
    requires first <= |ring| && 0 < start <= |ring| && i < |ring| && LeavesFloor(ring, floor, i)
    requires OffFloor(Rotated(ring, first), floor) <= Rotated(ring, start)
    ensures i == start - 1
  {
    if i != start - 1 {
      var k := TurnedPosition(ring, start, i);
      ShoreThenFloor(ring, floor, first, start, k);
      ShoreThenFloor(ring, floor, first, start, k + 1);
      assert false;
    }
  }

  lemma StretchStart(line: Ring, ring: Ring) returns (start: nat)
    requires OneStretch(line, ring) && ring != []
    ensures 0 < start <= |ring| && line <= Rotated(ring, start)
  {
    start :| 0 <= start <= |ring| && line <= Rotated(ring, start);
    if start == 0 {
      assert Rotated(ring, 0) == Rotated(ring, |ring|);
      start := |ring|;
    }
  }

  /** A stretch that is the whole shore can only be left for the floor at its end. */
  lemma {:induction false} OneStretchLeavesOnce(ring: Ring, floor: int, boundary: nat)
    requires boundary < |ring| && LeavesFloor(ring, floor, boundary)
    requires OneStretch(OffFloor(Rotated(ring, boundary + 1), floor), ring)
    ensures LeavesOnlyAt(ring, floor, boundary)
  {
    var first := boundary + 1;
    var start := StretchStart(OffFloor(Rotated(ring, first), floor), ring);
    AllLeaveAt(ring, floor, first, start);
    assert boundary == start - 1;
  }

  lemma {:induction false} AllLeaveAt(ring: Ring, floor: int, first: nat, start: nat)
    requires first <= |ring| && 0 < start <= |ring|
    requires OffFloor(Rotated(ring, first), floor) <= Rotated(ring, start)
    ensures LeavesOnlyAt(ring, floor, start - 1)
  {
    forall i | 0 <= i < |ring| && LeavesFloor(ring, floor, i) ensures i == start - 1 {
      WholeShoreLeavesOnce(ring, floor, first, start, i);
    }
  }

  /** The opened coast is one stretch of the ring exactly when the ring leaves the floor
      once; otherwise dropping the floor joins separate shores. */
  lemma OpenedIsOneStretchIff(ring: Ring, floor: int, boundary: nat)
    requires boundary < |ring| && LeavesFloor(ring, floor, boundary)
    ensures OneStretch(OffFloor(Rotated(ring, boundary + 1), floor), ring) <==> Leaves(ring, floor) <= 1
  {
    LeavesOnceIff(ring, floor, boundary);
    if LeavesOnlyAt(ring, floor, boundary) {
      TurnedShoreFirst(ring, floor, boundary);
    } else if OneStretch(OffFloor(Rotated(ring, boundary + 1), floor), ring) {
      OneStretchLeavesOnce(ring, floor, boundary);
      assert false;
    }
  }

  /** The coast is one unbroken stretch of the ring exactly when the ring leaves the floor
      at most once. */
  lemma CoastIsOneStretchIff(ring: Ring, floor: int)
    requires CoastOf(ring, MeetsFloor(ring, floor), floor).Ok?
    ensures OneStretch(CoastOf(ring, MeetsFloor(ring, floor), floor).value, ring) <==> Leaves(ring, floor) <= 1
  {
    if MeetsFloor(ring, floor) {
      OpenedIsOneStretchIff(ring, floor, FirstLeaving(ring, floor, 0));
    } else {
      assert Rotated(ring, 0) == ring;
      NeverRisesIff(Closed(ring), floor);
      assert forall i :: 0 <= i < |Closed(ring)| ==> Closed(ring)[i] in ring;
    }
  }

  predicate MeetsFloor(ring: Ring, floor: int) {
    exists p :: p in ring && OnFloor(p, floor)
  }

  // ---- The edges of the coast --------------------------------------------------------------

  function Next(ring: Ring, i: nat): Point
    requires i < |ring|
  {
    if i + 1 == |ring| then ring[0] else ring[i + 1]
  }

  ghost predicate LineEdge(line: seq<Point>, p: Point, q: Point) {
    exists n :: 0 <= n < |line| - 1 && line[n] == p && line[n + 1] == q
  }

  /** An edge of the ring off the floor; the closing one counts when the ring is opened
      elsewhere. */
  ghost predicate DrawnEdge(ring: Ring, floor: int, p: Point, q: Point) {
    exists i: nat :: i < |ring| && ring[i] == p && Next(ring, i) == q && !OnFloor(p, floor) && !OnFloor(q, floor)
                 && (i + 1 < |ring| || MeetsFloor(ring, floor))
  }

  /** A coast in one stretch draws exactly the edges of the ring that are off the floor. */
  lemma CoastDrawsShore(ring: Ring, floor: int, p: Point, q: Point)
    requires CoastOf(ring, MeetsFloor(ring, floor), floor).Ok? && Leaves(ring, floor) <= 1
    ensures LineEdge(CoastOf(ring, MeetsFloor(ring, floor), floor).value, p, q) <==> DrawnEdge(ring, floor, p, q)
  {
    if MeetsFloor(ring, floor) {
      OpenedDrawsShore(ring, floor, FirstLeaving(ring, floor, 0), p, q);
    } else {
      if n :| 0 <= n < |ring| - 1 && ring[n] == p && ring[n + 1] == q {
        assert p in ring && q in ring && Next(ring, n) == q;
        assert DrawnEdge(ring, floor, p, q);
      }
    }
  }

  lemma OpenedDrawsShore(ring: Ring, floor: int, boundary: nat, p: Point, q: Point)
    requires boundary < |ring| && LeavesFloor(ring, floor, boundary) && Leaves(ring, floor) <= 1
    ensures LineEdge(OffFloor(Rotated(ring, boundary + 1), floor), p, q) <==> DrawnEdge(ring, floor, p, q)
  {
    var line := OffFloor(Rotated(ring, boundary + 1), floor);
    LeavesOnceIff(ring, floor, boundary);
    TurnedShoreFirst(ring, floor, boundary);
    if n :| 0 <= n < |line| - 1 && line[n] == p && line[n + 1] == q {
      LineEdgeIsDrawn(ring, floor, boundary, n);
    }
    if i: nat :| i < |ring| && ring[i] == p && Next(ring, i) == q && !OnFloor(p, floor) && !OnFloor(q, floor) {
      DrawnEdgeIsLine(ring, floor, boundary, i);
    }
  }

  lemma LineEdgeIsDrawn(ring: Ring, floor: int, boundary: nat, n: nat)
    requires boundary < |ring| && LeavesFloor(ring, floor, boundary)
    requires OffFloor(Rotated(ring, boundary + 1), floor) <= Rotated(ring, boundary + 1)
    requires n + 1 < |OffFloor(Rotated(ring, boundary + 1), floor)|
    ensures var line := OffFloor(Rotated(ring, boundary + 1), floor);
      DrawnEdge(ring, floor, line[n], line[n + 1])
  {
    var start, line := boundary + 1, OffFloor(Rotated(ring, boundary + 1), floor);
    assert line[n] in line && line[n + 1] in line;
    assert Rotated(ring, start)[n] == line[n] && Rotated(ring, start)[n + 1] == line[n + 1];
    var i := if n + start < |ring| then n + start else n + start - |ring|;
    assert ring[i] == line[n] && Next(ring, i) == line[n + 1];
    assert ring[boundary] in ring && MeetsFloor(ring, floor);
  }

  lemma DrawnEdgeIsLine(ring: Ring, floor: int, boundary: nat, i: nat)
    requires boundary < |ring| && LeavesFloor(ring, floor, boundary)
    requires OffFloor(Rotated(ring, boundary + 1), floor) <= Rotated(ring, boundary + 1)
    requires i < |ring| && !OnFloor(ring[i], floor) && !OnFloor(Next(ring, i), floor)
    ensures LineEdge(OffFloor(Rotated(ring, boundary + 1), floor), ring[i], Next(ring, i))
  {
    var start, line := boundary + 1, OffFloor(Rotated(ring, boundary + 1), floor);
    var k := TurnedPosition(ring, start, i);
    ShoreThenFloor(ring, floor, start, start, k);
    ShoreThenFloor(ring, floor, start, start, k + 1);
    assert line[k] == ring[i] && line[k + 1] == Next(ring, i);
  }

  lemma TurnedPosition(ring: Ring, start: nat, i: nat) returns (k: nat)
    requires 0 < start <= |ring| && i < |ring| && i != start - 1
    ensures k + 1 < |ring|
    ensures Rotated(ring, start)[k] == ring[i]
    ensures Rotated(ring, start)[k + 1] == if i + 1 == |ring| then ring[0] else ring[i + 1]
  {
    k := if i >= start then i - start else i + |ring| - start;
  }

  lemma {:induction false} TurnedStaysOnFloor(ring: Ring, floor: int, boundary: nat, k: nat, j: nat)
    requires boundary < |ring| && k <= j < |ring|
    requires LeavesOnlyAt(ring, floor, boundary)
    requires OnFloor(Rotated(ring, boundary + 1)[k], floor)
    ensures OnFloor(Rotated(ring, boundary + 1)[j], floor)
    decreases j - k
  {
    if k < j {
      var start := boundary + 1;
      var i := if k + start < |ring| then k + start else k + start - |ring|;
      assert i != boundary && !LeavesFloor(ring, floor, i);
      TurnedStaysOnFloor(ring, floor, boundary, k + 1, j);
    }
  }

  /** What is left of the ring is all of its shore, vertex for vertex. */
  lemma CoastLosesNoShore(ring: Ring, floor: int, start: nat)
    requires start <= |ring|
    ensures multiset(OffFloor(Rotated(ring, start), floor)) == multiset(OffFloor(ring, floor))
    ensures forall p :: p in OffFloor(Rotated(ring, start), floor) ==> !OnFloor(p, floor)
  {
    var off := (p: Point) => !OnFloor(p, floor);
    FilterConcat(ring[start..], ring[..start], off);
    FilterConcat(ring[..start], ring[start..], off);
    assert ring == ring[..start] + ring[start..];
  }
}
