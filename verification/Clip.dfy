/** Sutherland-Hodgman clipping against one half-plane at a time, and the fill polygons
    built from it. On the millidegree grid the source's `EPSILON` decides nothing. */
module Clip {
  import opened Geometry

  datatype Axis = Longitude | Latitude

  /** The points whose coordinate on `axis` is at least (or at most) `level`. */
  datatype HalfPlane = HalfPlane(axis: Axis, level: int, atLeast: bool)

  function Coord(p: Point, axis: Axis): int {
    if axis.Longitude? then p.x else p.y
  }

  function Other(axis: Axis): Axis {
    if axis.Longitude? then Latitude else Longitude
  }

  predicate Keeps(h: HalfPlane, p: Point) {
    if h.atLeast then Coord(p, h.axis) >= h.level else Coord(p, h.axis) <= h.level
  }

  predicate OnBoundary(h: HalfPlane, p: Point) {
    Coord(p, h.axis) == h.level
  }

  type Rounding = real -> int

  /** All that is needed of `round(…, 3)`: monotone, and the identity on the grid. */
  ghost predicate Rounds(round: Rounding) {
    && (forall a, b :: a <= b ==> round(a) <= round(b))
    && (forall a: real :: a == a.Floor as real ==> round(a) == a.Floor)
  }

  function Along(a: int, b: int, t: real): real {
    a as real + (b - a) as real * t
  }

  /** Where the edge from `a` to `b` meets the boundary. */
  function Cross(h: HalfPlane, a: Point, b: Point, round: Rounding): Point
    requires Keeps(h, a) != Keeps(h, b)
  {
    var t := (h.level - Coord(a, h.axis)) as real / (Coord(b, h.axis) - Coord(a, h.axis)) as real;
    var other := Other(h.axis);
    var v := round(Along(Coord(a, other), Coord(b, other), t));
    if h.axis.Longitude? then Point(h.level, v) else Point(v, h.level)
  }

  // ---- One pass -----------------------------------------------------------------------

  /** Vertex `i`, the first one again after the last. */
  function Vertex(ring: Ring, i: nat): Point
    requires ring != [] && i <= |ring|
  {
    if i == |ring| then ring[0] else ring[i]
  }

  lemma WrapAround(ring: Ring, i: nat)
    requires i < |ring|
    ensures 0 <= (i + 1) % |ring| < |ring| && ring[(i + 1) % |ring|] == Vertex(ring, i + 1)
  {
    if i + 1 < |ring| { SmallModulo(i + 1, |ring|); }
  }

  lemma SmallModulo(i: nat, n: nat)
    requires i < n
    ensures i % n == i
  {
  }

  function Emit(h: HalfPlane, a: Point, b: Point, round: Rounding): seq<Point> {
    (if Keeps(h, a) then [a] else []) + (if Keeps(h, a) != Keeps(h, b) then [Cross(h, a, b, round)] else [])
  }

  /** What the first `n` edges of the ring contribute. */
  function Emitted(h: HalfPlane, ring: Ring, round: Rounding, n: nat): seq<Point>
    requires n <= |ring|
  {
    if n == 0 then [] else Emitted(h, ring, round, n - 1) + Emit(h, Vertex(ring, n - 1), Vertex(ring, n), round)
  }

  function Clipped(h: HalfPlane, ring: Ring, round: Rounding): Ring {
    var all := Emitted(h, ring, round, |ring|);
    if |all| >= 3 then all else []
  }

  method ClipRing(h: HalfPlane, ring: Ring, round: Rounding) returns (r: Ring)
    ensures r == Clipped(h, ring, round)
  {
    r := [];
    for index := 0 to |ring|
      invariant r == Emitted(h, ring, round, index)
    {
      WrapAround(ring, index);
      var first := ring[index];
      var second := ring[(index + 1) % |ring|];
      if Keeps(h, first) {
        r := r + [first];
      }
      if Keeps(h, first) != Keeps(h, second) {
        r := r + [Cross(h, first, second, round)];
      }
    }
    if |r| < 3 { r := []; }
  }

  // ---- Where a crossing lies -------------------------------------------------------------

  predicate Between(v: int, a: int, b: int) {
    a <= v <= b || b <= v <= a
  }

  lemma FractionInRange(num: int, den: int)
    requires (den > 0 && 0 <= num <= den) || (den < 0 && den <= num <= 0)
    ensures 0.0 <= num as real / den as real <= 1.0
  {
    var t := num as real / den as real;
    assert t * den as real == num as real;
    if den > 0 {
      ScaledSign(t, den as real);
      ScaledSign(1.0 - t, den as real);
    } else {
      ScaledSign(t, (-den) as real);
      ScaledSign(1.0 - t, (-den) as real);
    }
  }

  lemma ScaledSign(a: real, n: real)
    requires n > 0.0 && a * n >= 0.0
    ensures a >= 0.0
  {
  }

  lemma AlongStaysBetween(a: int, b: int, t: real)
    requires 0.0 <= t <= 1.0
    ensures a <= b ==> a as real <= Along(a, b, t) <= b as real
    ensures b <= a ==> b as real <= Along(a, b, t) <= a as real
  {
    var d := (b - a) as real;
    Scaled(d, t);
    var p := d * t;
    assert Along(a, b, t) == a as real + p;
    assert b as real == a as real + d;
  }

  lemma InterpolationStaysBetween(a: int, b: int, t: real, round: Rounding)
    requires Rounds(round) && 0.0 <= t <= 1.0
    ensures Between(round(Along(a, b, t)), a, b)
  {
    AlongStaysBetween(a, b, t);
    if a <= b { RoundsBetween(a, Along(a, b, t), b, round); } else { RoundsBetween(b, Along(a, b, t), a, round); }
  }

  lemma RoundsBetween(lo: int, v: real, hi: int, round: Rounding)
    requires Rounds(round) && lo as real <= v <= hi as real
    ensures lo <= round(v) <= hi
  {
    assert round(lo as real) == lo && round(hi as real) == hi;
    assert round(lo as real) <= round(v) && round(v) <= round(hi as real);
  }

  lemma Scaled(d: real, t: real)
    requires 0.0 <= t <= 1.0
    ensures d >= 0.0 ==> 0.0 <= d * t <= d
    ensures d <= 0.0 ==> d <= d * t <= 0.0
  {
    var u := 1.0 - t;
    assert d * t + d * u == d;
    ProductSign(d, t);
    ProductSign(d, u);
  }

  lemma ProductSign(d: real, t: real)
    requires t >= 0.0
    ensures d >= 0.0 ==> d * t >= 0.0
    ensures d <= 0.0 ==> d * t <= 0.0
  {
  }

  /** An inserted vertex is on the boundary and, on both axes, between the ends of its edge:
      rounding cannot push it out. The division in it is never by zero. */
  lemma CrossBetween(h: HalfPlane, a: Point, b: Point, round: Rounding)
    requires Rounds(round) && Keeps(h, a) != Keeps(h, b)
    ensures Coord(a, h.axis) != Coord(b, h.axis)
    ensures Coord(Cross(h, a, b, round), h.axis) == h.level
    ensures Between(Cross(h, a, b, round).x, a.x, b.x) && Between(Cross(h, a, b, round).y, a.y, b.y)
  {
    var num, den := h.level - Coord(a, h.axis), Coord(b, h.axis) - Coord(a, h.axis);
    FractionInRange(num, den);
    InterpolationStaysBetween(Coord(a, Other(h.axis)), Coord(b, Other(h.axis)), num as real / den as real, round);
  }

  /** The line through `a` and `b` comes to the boundary where its other coordinate is `v`. */
  ghost predicate ComesTo(h: HalfPlane, a: Point, b: Point, v: real) {
    var axis, other := h.axis, Other(h.axis);
    (v - Coord(a, other) as real) * (Coord(b, axis) - Coord(a, axis)) as real
    == (h.level - Coord(a, axis)) as real * (Coord(b, other) - Coord(a, other)) as real
  }

  /** `p` is the point in which the line through `a` and `b` meets the boundary, rounded. */
  ghost predicate IsCrossing(h: HalfPlane, a: Point, b: Point, round: Rounding, p: Point) {
    OnBoundary(h, p) && exists v :: ComesTo(h, a, b, v) && Coord(p, Other(h.axis)) == round(v)
  }

  lemma SameFactor(x: real, y: real, d: real)
    requires d != 0.0 && x * d == y * d
    ensures x == y
  {
    assert (x - y) * d == 0.0;
  }

  lemma CrossComesTo(h: HalfPlane, a: Point, b: Point) returns (v: real)
    requires Keeps(h, a) != Keeps(h, b)
    ensures ComesTo(h, a, b, v)
    ensures forall round :: Coord(Cross(h, a, b, round), Other(h.axis)) == round(v)
    ensures forall round :: OnBoundary(h, Cross(h, a, b, round))
  {
    var other := Other(h.axis);
    var num, den := (h.level - Coord(a, h.axis)) as real, (Coord(b, h.axis) - Coord(a, h.axis)) as real;
    var t, d := num / den, (Coord(b, other) - Coord(a, other)) as real;
    v := Along(Coord(a, other), Coord(b, other), t);
    assert t * den == num;
    assert v - Coord(a, other) as real == d * t;
    assert d * t * den == num * d;
  }

  /** The inserted vertex is that point, and no other is. */
  lemma CrossingIff(h: HalfPlane, a: Point, b: Point, round: Rounding, p: Point)
    requires Keeps(h, a) != Keeps(h, b)
    ensures IsCrossing(h, a, b, round, p) <==> p == Cross(h, a, b, round)
  {
    var v := CrossComesTo(h, a, b);
    if IsCrossing(h, a, b, round, p) {
      var w :| ComesTo(h, a, b, w) && Coord(p, Other(h.axis)) == round(w);
      var start := Coord(a, Other(h.axis)) as real;
      SameFactor(v - start, w - start, (Coord(b, h.axis) - Coord(a, h.axis)) as real);
    }
  }

  // ---- What a pass keeps ----------------------------------------------------------------

  predicate InRange(p: Point, axis: Axis, lo: int, hi: int) {
    lo <= Coord(p, axis) <= hi
  }

  ghost predicate AllInRange(ring: Ring, axis: Axis, lo: int, hi: int) {
    forall p :: p in ring ==> InRange(p, axis, lo, hi)
  }

  lemma {:induction false} EmittedKept(h: HalfPlane, ring: Ring, round: Rounding, n: nat)
    requires Rounds(round) && n <= |ring|
    ensures forall p :: p in Emitted(h, ring, round, n) ==> Keeps(h, p)
  {
    if n > 0 {
      EmittedKept(h, ring, round, n - 1);
      EmitKept(h, Vertex(ring, n - 1), Vertex(ring, n), round);
    }
  }

  lemma EmitKept(h: HalfPlane, a: Point, b: Point, round: Rounding)
    requires Rounds(round)
    ensures forall p :: p in Emit(h, a, b, round) ==> Keeps(h, p)
  {
    if Keeps(h, a) != Keeps(h, b) { CrossBetween(h, a, b, round); }
  }

  lemma {:induction false} EmittedInRange(h: HalfPlane, ring: Ring, round: Rounding, n: nat,
                                          axis: Axis, lo: int, hi: int)
    requires Rounds(round) && n <= |ring| && AllInRange(ring, axis, lo, hi)
    ensures forall p :: p in Emitted(h, ring, round, n) ==> InRange(p, axis, lo, hi)
  {
    if n > 0 {
      EmittedInRange(h, ring, round, n - 1, axis, lo, hi);
      var a, b := Vertex(ring, n - 1), Vertex(ring, n);
      assert a in ring && b in ring;
      if Keeps(h, a) != Keeps(h, b) { CrossBetween(h, a, b, round); }
    }
  }

  /** A pass leaves only points of the half-plane and never widens the ring on any axis. */
  lemma ClippedInside(h: HalfPlane, ring: Ring, round: Rounding, axis: Axis, lo: int, hi: int)
    requires Rounds(round)
    ensures forall p :: p in Clipped(h, ring, round) ==> Keeps(h, p)
    ensures AllInRange(ring, axis, lo, hi) ==> AllInRange(Clipped(h, ring, round), axis, lo, hi)
  {
    EmittedKept(h, ring, round, |ring|);
    if AllInRange(ring, axis, lo, hi) { EmittedInRange(h, ring, round, |ring|, axis, lo, hi); }
  }

  lemma {:induction false} EmittedWhole(h: HalfPlane, ring: Ring, round: Rounding, n: nat)
    requires n <= |ring| && forall p :: p in ring ==> Keeps(h, p)
    ensures Emitted(h, ring, round, n) == ring[..n]
  {
    if n > 0 {
      EmittedWhole(h, ring, round, n - 1);
      assert Vertex(ring, n - 1) in ring && Vertex(ring, n) in ring;
    }
  }

  /** A ring comes back unchanged exactly when all of it is inside and it is a ring at all. */
  lemma UnchangedIffInside(h: HalfPlane, ring: Ring, round: Rounding)
    requires Rounds(round)
    ensures Clipped(h, ring, round) == ring
       <==> (forall p :: p in ring ==> Keeps(h, p)) && (|ring| >= 3 || ring == [])
  {
    EmittedKept(h, ring, round, |ring|);
    if forall p :: p in ring ==> Keeps(h, p) { EmittedWhole(h, ring, round, |ring|); }
  }

  lemma {:induction false} KeptVertexEmitted(h: HalfPlane, ring: Ring, round: Rounding, n: nat, i: nat)
    requires i < n <= |ring| && Keeps(h, ring[i])
    ensures ring[i] in Emitted(h, ring, round, n)
  {
    if i < n - 1 {
      KeptVertexEmitted(h, ring, round, n - 1, i);
    } else {
      assert Vertex(ring, n - 1) == ring[i];
      EmitStarts(h, ring[i], Vertex(ring, n), round);
    }
  }

  lemma EmitStarts(h: HalfPlane, a: Point, b: Point, round: Rounding)
    requires Keeps(h, a)
    ensures a in Emit(h, a, b, round)
  {
    assert Emit(h, a, b, round)[0] == a;
  }

  // ---- When nothing is left -------------------------------------------------------------

  /** How many of the first `n` edges have one end inside and one outside. */
  function Turns(h: HalfPlane, ring: Ring, n: nat): nat
    requires n <= |ring|
  {
    if n == 0 then 0
    else Turns(h, ring, n - 1) + if Keeps(h, Vertex(ring, n - 1)) != Keeps(h, Vertex(ring, n)) then 1 else 0
  }

  /** How many of the first `n` vertices are inside. */
  function Inside(h: HalfPlane, ring: Ring, n: nat): nat
    requires n <= |ring|
  {
    if n == 0 then 0 else Inside(h, ring, n - 1) + if Keeps(h, ring[n - 1]) then 1 else 0
  }

  lemma {:induction false} EmittedLength(h: HalfPlane, ring: Ring, round: Rounding, n: nat)
    requires n <= |ring|
    ensures |Emitted(h, ring, round, n)| == Inside(h, ring, n) + Turns(h, ring, n)
  {
    if n > 0 { EmittedLength(h, ring, round, n - 1); }
  }

  lemma {:induction false} TurnsParity(h: HalfPlane, ring: Ring, n: nat)
    requires ring != [] && n <= |ring|
    ensures Turns(h, ring, n) % 2 == 0 <==> Keeps(h, Vertex(ring, n)) == Keeps(h, ring[0])
  {
    if n > 0 { TurnsParity(h, ring, n - 1); }
  }

  lemma {:induction false} NoTurn(h: HalfPlane, ring: Ring, n: nat, i: nat)
    requires ring != [] && i <= n <= |ring| && Turns(h, ring, n) == 0
    ensures Keeps(h, Vertex(ring, i)) == Keeps(h, Vertex(ring, n))
  {
    if i < n { NoTurn(h, ring, n - 1, i); }
  }

  lemma {:induction false} SomeInside(h: HalfPlane, ring: Ring, n: nat, i: nat)
    requires i < n <= |ring| && Keeps(h, ring[i])
    ensures Inside(h, ring, n) > 0
  {
    if i < n - 1 { SomeInside(h, ring, n - 1, i); }
  }

  /** A ring with vertices on both sides is crossed an even number of times, at least twice. */
  lemma MixedTurnsTwice(h: HalfPlane, ring: Ring, p: Point, q: Point)
    requires p in ring && q in ring && Keeps(h, p) && !Keeps(h, q)
    ensures Turns(h, ring, |ring|) >= 2 && Inside(h, ring, |ring|) > 0
  {
    var i :| 0 <= i < |ring| && ring[i] == p;
    var j :| 0 <= j < |ring| && ring[j] == q;
    SomeInside(h, ring, |ring|, i);
    TurnsParity(h, ring, |ring|);
    if Turns(h, ring, |ring|) == 0 {
      NoTurn(h, ring, |ring|, i);
      NoTurn(h, ring, |ring|, j);
    }
  }

  lemma {:induction false} EmittedNone(h: HalfPlane, ring: Ring, round: Rounding, n: nat)
    requires n <= |ring| && forall p :: p in ring ==> !Keeps(h, p)
    ensures Emitted(h, ring, round, n) == []
  {
    if n > 0 {
      EmittedNone(h, ring, round, n - 1);
      assert Vertex(ring, n - 1) in ring && Vertex(ring, n) in ring;
    }
  }

  /** A pass leaves nothing exactly when no vertex is inside, or there was no ring. */
  lemma ClippedEmptyIff(h: HalfPlane, ring: Ring, round: Rounding)
    ensures Clipped(h, ring, round) == []
       <==> (forall p :: p in ring ==> !Keeps(h, p)) || (|ring| < 3 && forall p :: p in ring ==> Keeps(h, p))
  {
    if forall p :: p in ring ==> !Keeps(h, p) {
      EmittedNone(h, ring, round, |ring|);
    } else if forall p :: p in ring ==> Keeps(h, p) {
      EmittedWhole(h, ring, round, |ring|);
    } else {
      var p :| p in ring && Keeps(h, p);
      var q :| q in ring && !Keeps(h, q);
      MixedTurnsTwice(h, ring, p, q);
      EmittedLength(h, ring, round, |ring|);
    }
  }

  /** No vertex inside is lost. */
  lemma KeptVertexSurvives(h: HalfPlane, ring: Ring, round: Rounding, p: Point)
    requires |ring| >= 3 && p in ring && Keeps(h, p)
    ensures p in Clipped(h, ring, round)
  {
    var i :| 0 <= i < |ring| && ring[i] == p;
    KeptVertexEmitted(h, ring, round, |ring|, i);
    ClippedEmptyIff(h, ring, round);
  }

  lemma {:induction false} TurnEmits(h: HalfPlane, ring: Ring, round: Rounding, n: nat)
    requires Rounds(round) && n <= |ring| && Turns(h, ring, n) > 0
    ensures exists p :: p in Emitted(h, ring, round, n) && OnBoundary(h, p)
  {
    var a, b := Vertex(ring, n - 1), Vertex(ring, n);
    var last := Emit(h, a, b, round);
    if Keeps(h, a) != Keeps(h, b) {
      CrossBetween(h, a, b, round);
      var c := Cross(h, a, b, round);
      assert c == last[|last| - 1];
      assert Emitted(h, ring, round, n) == Emitted(h, ring, round, n - 1) + last;
      assert c in last && OnBoundary(h, c);
    } else {
      TurnEmits(h, ring, round, n - 1);
    }
  }

  /** A ring with vertices on both sides comes to the boundary. */
  lemma MixedMeetsBoundary(h: HalfPlane, ring: Ring, round: Rounding, p: Point, q: Point)
    requires Rounds(round) && p in ring && q in ring && Keeps(h, p) && !Keeps(h, q)
    ensures exists c :: c in Clipped(h, ring, round) && OnBoundary(h, c)
  {
    MixedTurnsTwice(h, ring, p, q);
    EmittedLength(h, ring, round, |ring|);
    TurnEmits(h, ring, round, |ring|);
  }

  // ---- The edges of the result --------------------------------------------------------------

  /** `p` is an end of edge `k` or the point inserted on it. */
  ghost predicate OnEdge(h: HalfPlane, ring: Ring, round: Rounding, k: nat, p: Point)
    requires k < |ring|
  {
    var a, b := Vertex(ring, k), Vertex(ring, k + 1);
    p == a || p == b || (Keeps(h, a) != Keeps(h, b) && IsCrossing(h, a, b, round, p))
  }

  /** The edge from `p` to `q` runs along one edge of the ring, or along the boundary. */
  ghost predicate Honest(h: HalfPlane, ring: Ring, round: Rounding, p: Point, q: Point)
    requires ring != []
  {
    (OnBoundary(h, p) && OnBoundary(h, q))
    || exists k: nat :: k < |ring| && OnEdge(h, ring, round, k, p) && OnEdge(h, ring, round, k, q)
  }

  /** After `n` edges: the emitted edges are honest, the walk can go on to the next vertex
      or lies on the boundary, and it began at the first vertex or on the boundary. */
  ghost predicate HonestSoFar(h: HalfPlane, ring: Ring, round: Rounding, n: nat, out: seq<Point>)
    requires ring != [] && n <= |ring|
  {
    && (forall i {:trigger out[i]} :: 0 <= i < |out| - 1 ==> Honest(h, ring, round, out[i], out[i + 1]))
    && (out != [] ==>
          && (if Keeps(h, Vertex(ring, n)) then Honest(h, ring, round, out[|out| - 1], Vertex(ring, n))
              else OnBoundary(h, out[|out| - 1]))
          && (if Keeps(h, ring[0]) then out[0] == ring[0] else OnBoundary(h, out[0])))
    && (out == [] ==> n == 0 || (!Keeps(h, ring[0]) && !Keeps(h, Vertex(ring, n))))
  }

  lemma HonestPush(h: HalfPlane, ring: Ring, round: Rounding, out: seq<Point>, p: Point)
    requires ring != [] && out != []
    requires forall i {:trigger out[i]} :: 0 <= i < |out| - 1 ==> Honest(h, ring, round, out[i], out[i + 1])
    requires Honest(h, ring, round, out[|out| - 1], p)
    ensures var more := out + [p];
      forall i {:trigger more[i]} :: 0 <= i < |more| - 1 ==> Honest(h, ring, round, more[i], more[i + 1])
  {
    var more := out + [p];
    forall i | 0 <= i < |more| - 1 ensures Honest(h, ring, round, more[i], more[i + 1]) {
      if i < |out| - 1 { assert Honest(h, ring, round, out[i], out[i + 1]); }
    }
  }

  lemma HonestStep(h: HalfPlane, ring: Ring, round: Rounding, n: nat, out: seq<Point>)
    requires Rounds(round) && n < |ring| && HonestSoFar(h, ring, round, n, out)
    requires n == 0 ==> out == []
    ensures HonestSoFar(h, ring, round, n + 1, out + Emit(h, Vertex(ring, n), Vertex(ring, n + 1), round))
  {
    var a, b := Vertex(ring, n), Vertex(ring, n + 1);
    assert OnEdge(h, ring, round, n, a) && OnEdge(h, ring, round, n, b);
    if Keeps(h, a) {
      if out != [] { HonestPush(h, ring, round, out, a); }
      var one := out + [a];
      assert Honest(h, ring, round, a, b);
      if !Keeps(h, b) {
        var c := Cross(h, a, b, round);
        CrossBetween(h, a, b, round);
        CrossingIff(h, a, b, round, c);
        assert OnEdge(h, ring, round, n, c);
        HonestPush(h, ring, round, one, c);
        assert out + Emit(h, a, b, round) == one + [c];
      } else {
        assert out + Emit(h, a, b, round) == one;
      }
    } else if Keeps(h, b) {
      var c := Cross(h, a, b, round);
      CrossBetween(h, a, b, round);
      CrossingIff(h, a, b, round, c);
      assert OnEdge(h, ring, round, n, c);
      if out != [] { HonestPush(h, ring, round, out, c); }
      assert out + Emit(h, a, b, round) == out + [c];
    } else {
      assert out + Emit(h, a, b, round) == out;
    }
  }

  lemma {:induction false} EmittedHonest(h: HalfPlane, ring: Ring, round: Rounding, n: nat)
    requires Rounds(round) && ring != [] && n <= |ring|
    ensures HonestSoFar(h, ring, round, n, Emitted(h, ring, round, n))
  {
    if n > 0 {
      EmittedHonest(h, ring, round, n - 1);
      HonestStep(h, ring, round, n - 1, Emitted(h, ring, round, n - 1));
    }
  }

  /** What is emitted begins with the first vertex or on the boundary. */
  lemma {:induction false} EmittedStart(h: HalfPlane, ring: Ring, round: Rounding, n: nat)
    requires Rounds(round) && ring != [] && n <= |ring| && Emitted(h, ring, round, n) != []
    ensures Keeps(h, ring[0]) ==> Emitted(h, ring, round, n)[0] == ring[0]
    ensures !Keeps(h, ring[0]) ==> OnBoundary(h, Emitted(h, ring, round, n)[0])
  {
    EmittedHonest(h, ring, round, n);
  }

  /** Clipping invents no edges: each edge of the result, the closing one included, runs
      along one edge of the ring or along the boundary. */
  lemma ClippedEdgesHonest(h: HalfPlane, ring: Ring, round: Rounding)
    requires Rounds(round) && ring != []
    ensures var out := Clipped(h, ring, round);
      && (forall i {:trigger out[i]} :: 0 <= i < |out| - 1 ==> Honest(h, ring, round, out[i], out[i + 1]))
      && (out != [] ==> Honest(h, ring, round, out[|out| - 1], out[0]))
  {
    EmittedHonest(h, ring, round, |ring|);
    assert Vertex(ring, |ring|) == ring[0];
  }

  // ---- Fill polygons ---------------------------------------------------------------------------

  const MERCATOR_LIMIT: int := 85000

  function ClippedBetween(axis: Axis, ring: Ring, lo: int, hi: int, round: Rounding): Ring {
    Clipped(HalfPlane(axis, hi, false), Clipped(HalfPlane(axis, lo, true), ring, round), round)
  }

  /** `clip_latitude` and `clip_longitude`. */
  method ClipBetween(axis: Axis, ring: Ring, lo: int, hi: int, round: Rounding) returns (r: Ring)
    ensures r == ClippedBetween(axis, ring, lo, hi, round)
  {
    r := ClipRing(HalfPlane(axis, lo, true), ring, round);
    if r == [] { return; }
    r := ClipRing(HalfPlane(axis, hi, false), r, round);
  }

  /** Both passes together confine the ring, widen it nowhere, and change nothing that
      already fits. */
  lemma ClippedBetweenFits(axis: Axis, ring: Ring, lo: int, hi: int, round: Rounding, other: Axis, olo: int, ohi: int)
    requires Rounds(round) && lo <= hi
    ensures var out := ClippedBetween(axis, ring, lo, hi, round);
      && AllInRange(out, axis, lo, hi)
      && (AllInRange(ring, other, olo, ohi) ==> AllInRange(out, other, olo, ohi))
      && (out == [] || |out| >= 3)
      && (AllInRange(ring, axis, lo, hi) && |ring| >= 3 ==> out == ring)
  {
    var low, high := HalfPlane(axis, lo, true), HalfPlane(axis, hi, false);
    var once := Clipped(low, ring, round);
    ClippedInside(low, ring, round, other, olo, ohi);
    ClippedInside(high, once, round, other, olo, ohi);
    KeepsLowSide(once, axis, lo, hi, round);
    UnchangedIffInside(low, ring, round);
    UnchangedIffInside(high, ring, round);
  }

  lemma KeepsLowSide(once: Ring, axis: Axis, lo: int, hi: int, round: Rounding)
    requires Rounds(round) && lo <= hi && forall p :: p in once ==> Keeps(HalfPlane(axis, lo, true), p)
    ensures AllInRange(Clipped(HalfPlane(axis, hi, false), once, round), axis, lo, hi)
  {
    var top := Highest(once, axis, lo);
    ClippedInside(HalfPlane(axis, hi, false), once, round, axis, lo, top);
  }

  function Highest(ring: Ring, axis: Axis, lo: int): (top: int)
    ensures top >= lo && forall p :: p in ring ==> Coord(p, axis) <= top
  {
    if ring == [] then lo
    else
      var rest := Highest(ring[1..], axis, lo);
      if Coord(ring[0], axis) > rest then Coord(ring[0], axis) else rest
  }

  function Lowest(ring: Ring, axis: Axis, hi: int): (bottom: int)
    ensures bottom <= hi && forall p :: p in ring ==> Coord(p, axis) >= bottom
  {
    if ring == [] then hi
    else
      var rest := Lowest(ring[1..], axis, hi);
      if Coord(ring[0], axis) < rest then Coord(ring[0], axis) else rest
  }

  function LongitudeSpan(ring: Ring): int
    requires ring != []
  {
    Highest(ring, Longitude, ring[0].x) - Lowest(ring, Longitude, ring[0].x)
  }

  /** No two vertices are further apart in longitude. */
  ghost predicate NoWiderThan(ring: Ring, width: int) {
    forall p, q :: p in ring && q in ring ==> p.x - q.x <= width
  }

  lemma {:induction false} HighestTaken(ring: Ring, axis: Axis, lo: int)
    ensures Highest(ring, axis, lo) == lo || exists p :: p in ring && Coord(p, axis) == Highest(ring, axis, lo)
  {
    if ring != [] {
      HighestTaken(ring[1..], axis, lo);
      assert ring[0] in ring;
    }
  }

  lemma {:induction false} LowestTaken(ring: Ring, axis: Axis, hi: int)
    ensures Lowest(ring, axis, hi) == hi || exists p :: p in ring && Coord(p, axis) == Lowest(ring, axis, hi)
  {
    if ring != [] {
      LowestTaken(ring[1..], axis, hi);
      assert ring[0] in ring;
    }
  }

  lemma SpanMeaning(ring: Ring, width: int)
    requires ring != []
    ensures LongitudeSpan(ring) <= width <==> NoWiderThan(ring, width)
  {
    HighestTaken(ring, Longitude, ring[0].x);
    LowestTaken(ring, Longitude, ring[0].x);
    assert ring[0] in ring;
    if NoWiderThan(ring, width) {
      var p :| p in ring && p.x == Highest(ring, Longitude, ring[0].x);
      var q :| q in ring && q.x == Lowest(ring, Longitude, ring[0].x);
      assert p.x - q.x <= width;
    }
  }

  const BANDS: seq<(int, int)> := [(-180000, -90000), (-90000, 0), (0, 90000), (90000, 180000)]

  /** The ring as fill: banded when wider than a hemisphere allows. */
  function FillOf(ring: Ring, round: Rounding): seq<Ring>
    requires ring != []
  {
    if LongitudeSpan(ring) <= 170000 then [ring] else Banded(ring, round, |BANDS|)
  }

  method FillPolygons(ring: Ring, round: Rounding) returns (fill: seq<Ring>)
    requires ring != []
    ensures fill == FillOf(ring, round)
  {
    if LongitudeSpan(ring) <= 170000 {
      return [ring];
    }
    fill := [];
    for n := 0 to |BANDS|
      invariant fill == Banded(ring, round, n)
    {
      var band := ClipToBand(ring, n, round);
      if band != [] { fill := fill + [band]; }
    }
  }

  method ClipToBand(ring: Ring, k: nat, round: Rounding) returns (band: Ring)
    requires k < |BANDS|
    ensures band == Band(ring, round, k)
  {
    band := ClipBetween(Longitude, ring, BANDS[k].0, BANDS[k].1, round);
  }

  function Band(ring: Ring, round: Rounding, k: nat): Ring
    requires k < |BANDS|
  {
    ClippedBetween(Longitude, ring, BANDS[k].0, BANDS[k].1, round)
  }

  function Banded(ring: Ring, round: Rounding, n: nat): seq<Ring>
    requires n <= |BANDS|
  {
    if n == 0 then []
    else
      var band := Band(ring, round, n - 1);
      Banded(ring, round, n - 1) + if band != [] then [band] else []
  }

  /** The assertions `validate` makes about one fill ring. */
  ghost predicate Drawable(ring: Ring) {
    && |ring| >= 3
    && NoWiderThan(ring, 180000)
    && AllInRange(ring, Latitude, -85000, 85000)
  }

  ghost predicate InQuarter(ring: Ring, k: int) {
    0 <= k < 4 && AllInRange(ring, Longitude, 90000 * k - 180000, 90000 * k - 90000)
  }

  /** It lies in one of the four quarters between the antimeridians. */
  ghost predicate InOneQuarter(ring: Ring) {
    exists k :: InQuarter(ring, k)
  }

  lemma {:induction false} BandedDrawable(ring: Ring, round: Rounding, n: nat)
    requires Rounds(round) && n <= |BANDS| && AllInRange(ring, Latitude, -MERCATOR_LIMIT, MERCATOR_LIMIT)
    ensures forall band :: band in Banded(ring, round, n) ==> Drawable(band) && InOneQuarter(band)
  {
    if n > 0 {
      BandedDrawable(ring, round, n - 1);
      var (lo, hi) := BANDS[n - 1];
      var band := ClippedBetween(Longitude, ring, lo, hi, round);
      ClippedBetweenFits(Longitude, ring, lo, hi, round, Latitude, -MERCATOR_LIMIT, MERCATOR_LIMIT);
      assert band != [] ==> InQuarter(band, n - 1);
    }
  }

  /** The fill of any ring clipped to Web Mercator passes `validate`: no degenerate ring,
      none wider than a hemisphere, none past the limit. */
  lemma FillDrawable(ring: Ring, round: Rounding)
    requires Rounds(round)
    ensures var clipped := ClippedBetween(Latitude, ring, -MERCATOR_LIMIT, MERCATOR_LIMIT, round);
      clipped != [] ==> forall r :: r in FillOf(clipped, round) ==> Drawable(r)
  {
    var clipped := ClippedBetween(Latitude, ring, -MERCATOR_LIMIT, MERCATOR_LIMIT, round);
    ClippedBetweenFits(Latitude, ring, -MERCATOR_LIMIT, MERCATOR_LIMIT, round, Longitude, 0, 0);
    if clipped != [] {
      BandedDrawable(clipped, round, |BANDS|);
      SpanMeaning(clipped, 170000);
    }
  }

  /** Nothing is left between two levels exactly when the ring lies wholly below or wholly above. */
  lemma ClippedBetweenEmptyIff(axis: Axis, ring: Ring, lo: int, hi: int, round: Rounding)
    requires Rounds(round) && |ring| >= 3 && lo <= hi
    ensures ClippedBetween(axis, ring, lo, hi, round) == []
       <==> (forall p :: p in ring ==> Coord(p, axis) < lo) || (forall p :: p in ring ==> Coord(p, axis) > hi)
  {
    var low, high := HalfPlane(axis, lo, true), HalfPlane(axis, hi, false);
    var once := Clipped(low, ring, round);
    ClippedEmptyIff(low, ring, round);
    ClippedEmptyIff(high, once, round);
    if forall p :: p in ring ==> Keeps(low, p) {
      UnchangedIffInside(low, ring, round);
    } else if p :| p in ring && Keeps(low, p) {
      var q :| q in ring && !Keeps(low, q);
      MixedMeetsBoundary(low, ring, round, p, q);
      var c :| c in once && OnBoundary(low, c);
      assert Keeps(high, c);
    }
  }

  lemma VertexBetweenSurvives(axis: Axis, ring: Ring, lo: int, hi: int, round: Rounding, p: Point)
    requires |ring| >= 3 && p in ring && InRange(p, axis, lo, hi)
    ensures p in ClippedBetween(axis, ring, lo, hi, round)
  {
    var low, high := HalfPlane(axis, lo, true), HalfPlane(axis, hi, false);
    KeptVertexSurvives(low, ring, round, p);
    KeptVertexSurvives(high, Clipped(low, ring, round), round, p);
  }

  lemma {:induction false} BandedHolds(ring: Ring, round: Rounding, n: nat, k: nat)
    requires k < n <= |BANDS| && Band(ring, round, k) != []
    ensures Band(ring, round, k) in Banded(ring, round, n)
  {
    if k < n - 1 {
      BandedHolds(ring, round, n - 1, k);
    } else {
      assert Banded(ring, round, n) == Banded(ring, round, k) + [Band(ring, round, k)];
    }
  }

  /** The bands together lose no vertex between the antimeridians: each is in every band it
      lies in. */
  lemma BandedCovers(ring: Ring, round: Rounding, k: nat, p: Point)
    requires |ring| >= 3 && k < |BANDS| && p in ring && BANDS[k].0 <= p.x <= BANDS[k].1
    ensures p in Band(ring, round, k) && Band(ring, round, k) in Banded(ring, round, |BANDS|)
  {
    VertexBetweenSurvives(Longitude, ring, BANDS[k].0, BANDS[k].1, round, p);
    BandedHolds(ring, round, |BANDS|, k);
  }

  lemma {:induction false} BandedInQuarters(ring: Ring, round: Rounding, n: nat)
    requires Rounds(round) && n <= |BANDS|
    ensures forall band :: band in Banded(ring, round, n) ==> InOneQuarter(band)
  {
    if n > 0 {
      BandedInQuarters(ring, round, n - 1);
      var (lo, hi) := BANDS[n - 1];
      ClippedBetweenFits(Longitude, ring, lo, hi, round, Latitude, 0, 0);
      assert InQuarter(Band(ring, round, n - 1), n - 1);
    }
  }

  /** A ring no wider than 170 degrees is its own fill. A wider one is cut into rings that each
      lie in one quarter of the map, and together they hold every vertex it has on the map. */
  lemma FillMeaning(ring: Ring, round: Rounding)
    requires Rounds(round) && ring != []
    ensures NoWiderThan(ring, 170000) ==> FillOf(ring, round) == [ring]
    ensures !NoWiderThan(ring, 170000) ==> forall r :: r in FillOf(ring, round) ==> InOneQuarter(r)
    ensures |ring| >= 3 ==> forall p :: p in ring && -180000 <= p.x <= 180000 ==>
              exists r :: r in FillOf(ring, round) && p in r
  {
    SpanMeaning(ring, 170000);
    BandedInQuarters(ring, round, |BANDS|);
    forall p | |ring| >= 3 && p in ring && -180000 <= p.x <= 180000
      ensures exists r :: r in FillOf(ring, round) && p in r
    {
      if !NoWiderThan(ring, 170000) {
        var k := if p.x <= -90000 then 0 else if p.x <= 0 then 1 else if p.x <= 90000 then 2 else 3;
        BandedCovers(ring, round, k, p);
      } else {
        assert ring in FillOf(ring, round);
      }
    }
  }

  lemma {:induction false} BandedNone(ring: Ring, round: Rounding, n: nat)
    requires n <= |BANDS| && forall k :: 0 <= k < n ==> Band(ring, round, k) == []
    ensures Banded(ring, round, n) == []
  {
    if n > 0 { BandedNone(ring, round, n - 1); }
  }

  lemma BandEmptyIff(ring: Ring, round: Rounding, k: nat)
    requires Rounds(round) && |ring| >= 3 && k < |BANDS|
    ensures Band(ring, round, k) == []
       <==> (forall p :: p in ring ==> p.x < BANDS[k].0) || (forall p :: p in ring ==> p.x > BANDS[k].1)
  {
    ClippedBetweenEmptyIff(Longitude, ring, BANDS[k].0, BANDS[k].1, round);
  }

  ghost predicate AllWest(ring: Ring, x: int) {
    forall p :: p in ring ==> p.x < x
  }

  ghost predicate AllEast(ring: Ring, x: int) {
    forall p :: p in ring ==> p.x > x
  }

  /** A ring leaves no fill exactly when it is wide and lies wholly beyond one antimeridian. */
  lemma FillEmptyIff(ring: Ring, round: Rounding)
    requires Rounds(round) && |ring| >= 3
    ensures FillOf(ring, round) == []
       <==> !NoWiderThan(ring, 170000) && (AllWest(ring, -180000) || AllEast(ring, 180000))
  {
    SpanMeaning(ring, 170000);
    forall k: nat | k < |BANDS|
      ensures Band(ring, round, k) == [] <==> AllWest(ring, BANDS[k].0) || AllEast(ring, BANDS[k].1)
    {
      BandEmptyIff(ring, round, k);
    }
    if AllWest(ring, -180000) || AllEast(ring, 180000) {
      BandedNone(ring, round, |BANDS|);
    } else {
      var k := BandMet(ring);
      assert Band(ring, round, k) != [];
      BandedHolds(ring, round, |BANDS|, k);
    }
  }

  /** A ring that is not wholly beyond an antimeridian meets one of the bands. */
  lemma BandMet(ring: Ring) returns (k: nat)
    requires ring != [] && !AllWest(ring, -180000) && !AllEast(ring, 180000)
    ensures k < |BANDS| && !AllWest(ring, BANDS[k].0) && !AllEast(ring, BANDS[k].1)
  {
    if !AllEast(ring, -90000) {
      k := 0;
    } else if !AllEast(ring, 0) {
      k := 1;
    } else if !AllEast(ring, 90000) {
      k := 2;
    } else {
      k := 3;
    }
    assert ring[0] in ring;
  }
}
