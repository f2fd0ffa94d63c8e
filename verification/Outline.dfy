/** The shape of one country: each ring simplified, clipped to Web Mercator, filled and
    opened to its coast; and what `validate` then finds. */
module Outline {
  import opened Geometry
  import opened Types
  import Simplify
  import opened Clip
  import opened Coast
  import opened Shores

  datatype Shape = Shape(fill: seq<Ring>, coast: seq<Ring>)

  /** `tolerance` stands for `ring_tolerance`. */
  datatype Settings = Settings(tolerance: Ring -> real, round: Rounding)

  function Simple(ring: Ring, how: Settings): Ring {
    Simplify.Simplified(ring, how.tolerance(ring))
  }

  /** A ring ready to be drawn, or nothing. */
  function Prepared(ring: Ring, how: Settings): Ring {
    if |Simple(ring, how)| < 3 then [] else Charted(Simple(ring, how), how.round)
  }

  /** One more ring drawn into a shape. */
  function Draw(shape: Shape, ring: Ring, how: Settings): Result<Shape, CoastError> {
    var clipped := Prepared(ring, how);
    if clipped == [] then Ok(shape)
    else
      var line := CoastFor(clipped);
      if line.Err? then Err(line.error)
      else Ok(Shape(shape.fill + FillOf(clipped, how.round),
                    if |line.value| >= 2 then shape.coast + [line.value] else shape.coast))
  }

  function ShapeOf(rings: seq<Ring>, how: Settings): Result<Shape, CoastError> {
    if rings == [] then Ok(Shape([], []))
    else
      var before := ShapeOf(rings[..|rings| - 1], how);
      if before.Err? then before else Draw(before.value, rings[|rings| - 1], how)
  }

  lemma {:induction false} ErrorStays(rings: seq<Ring>, n: nat, how: Settings)
    requires n <= |rings| && ShapeOf(rings[..n], how).Err?
    ensures ShapeOf(rings, how) == ShapeOf(rings[..n], how)
    decreases |rings| - n
  {
    if n == |rings| {
      assert rings[..n] == rings;
    } else {
      assert rings[..n + 1][..n] == rings[..n];
      ErrorStays(rings, n + 1, how);
    }
  }

  lemma OneMoreRing(rings: seq<Ring>, n: nat, how: Settings)
    requires n < |rings| && ShapeOf(rings[..n], how).Ok?
    ensures ShapeOf(rings[..n + 1], how) == Draw(ShapeOf(rings[..n], how).value, rings[n], how)
  {
    assert rings[..n + 1][..n] == rings[..n];
  }

  /** What is drawn has at least three vertices, all within Web Mercator; nothing is drawn
      exactly when the simplified ring is lost. */
  lemma PreparedMeaning(ring: Ring, how: Settings)
    requires Rounds(how.round)
    ensures Prepared(ring, how) == [] <==> Lost(Simple(ring, how))
    ensures Lost(Simple(ring, how))
       <==> |Simple(ring, how)| < 3 || AllBelow(Simple(ring, how), -85000) || AllAbove(Simple(ring, how), 85000)
    ensures Prepared(ring, how) == [] || |Prepared(ring, how)| >= 3
    ensures AllInRange(Prepared(ring, how), Latitude, -85000, 85000)
  {
    var simple := Simple(ring, how);
    if |simple| >= 3 {
      ChartedEmptyIff(simple, how.round);
      ClippedBetweenFits(Latitude, simple, FLOOR, MERCATOR_LIMIT, how.round, Latitude, 0, 0);
    }
  }

  // ---- A shape is its rings' shapes, one after the other ------------------------------------

  function Joined(a: Shape, b: Shape): Shape {
    Shape(a.fill + b.fill, a.coast + b.coast)
  }

  /** What one ring that is not lost is drawn as: its fill and, if it has at least two points,
      its coast. */
  function Drawing(charted: Ring, round: Rounding): Result<Shape, CoastError>
    requires charted != []
  {
    match CoastFor(charted)
    case Err(error) => Err(error)
    case Ok(line) => Ok(Shape(FillOf(charted, round), if |line| >= 2 then [line] else []))
  }

  lemma DrawJoinsDrawing(shape: Shape, ring: Ring, how: Settings)
    ensures Draw(shape, ring, how)
         == if Prepared(ring, how) == [] then Ok(shape)
            else match Drawing(Prepared(ring, how), how.round)
              case Err(error) => Err(error)
              case Ok(d) => Ok(Joined(shape, d))
  {
    var charted := Prepared(ring, how);
    if charted != [] && CoastFor(charted).Ok? {
      assert shape.coast + [] == shape.coast;
    }
  }

  lemma JoinedThrice(a: Shape, b: Shape, c: Shape)
    ensures Joined(Joined(a, b), c) == Joined(a, Joined(b, c))
    ensures Joined(a, Shape([], [])) == a == Joined(Shape([], []), a)
  {
    assert a.fill + b.fill + c.fill == a.fill + (b.fill + c.fill);
    assert a.coast + b.coast + c.coast == a.coast + (b.coast + c.coast);
  }

  lemma {:induction false} DrawJoins(a: Shape, b: Shape, ring: Ring, how: Settings)
    ensures Draw(b, ring, how).Ok? ==> Draw(Joined(a, b), ring, how) == Ok(Joined(a, Draw(b, ring, how).value))
    ensures Draw(b, ring, how).Err? ==> Draw(Joined(a, b), ring, how).Err?
  {
    DrawJoinsDrawing(b, ring, how);
    DrawJoinsDrawing(Joined(a, b), ring, how);
    if Prepared(ring, how) != [] && Drawing(Prepared(ring, how), how.round).Ok? {
      JoinedThrice(a, b, Drawing(Prepared(ring, how), how.round).value);
    }
  }

  /** Drawing two lists of rings one after the other gives both their shapes, in order. */
  lemma {:induction false} ShapesJoin(a: seq<Ring>, b: seq<Ring>, how: Settings)
    requires ShapeOf(a, how).Ok?
    ensures ShapeOf(b, how).Ok? ==> ShapeOf(a + b, how) == Ok(Joined(ShapeOf(a, how).value, ShapeOf(b, how).value))
    ensures ShapeOf(b, how).Err? ==> ShapeOf(a + b, how).Err?
  {
    if b == [] {
      assert a + b == a;
      JoinedThrice(ShapeOf(a, how).value, Shape([], []), Shape([], []));
    } else {
      var front, last := b[..|b| - 1], b[|b| - 1];
      ShapesJoin(a, front, how);
      assert (a + b)[..|a + b| - 1] == a + front;
      if ShapeOf(front, how).Ok? { DrawJoins(ShapeOf(a, how).value, ShapeOf(front, how).value, last, how); }
    }
  }

  lemma {:induction false} ShapeOfOne(ring: Ring, how: Settings)
    requires Rounds(how.round)
    ensures Lost(Simple(ring, how)) ==> ShapeOf([ring], how) == Ok(Shape([], []))
    ensures !Lost(Simple(ring, how)) ==>
              var charted := Charted(Simple(ring, how), how.round);
              charted != [] && ShapeOf([ring], how) == Drawing(charted, how.round)
  {
    PreparedMeaning(ring, how);
    DrawJoinsDrawing(Shape([], []), ring, how);
    if Prepared(ring, how) != [] && Drawing(Prepared(ring, how), how.round).Ok? {
      var drawing := Drawing(Prepared(ring, how), how.round).value;
      JoinedThrice(drawing, drawing, drawing);
    }
    OneMoreRing([ring], 0, how);
    assert [ring][..1] == [ring] && [ring][..0] == [];
  }

  method Prepare(ring: Ring, how: Settings) returns (r: Ring)
    ensures r == Prepared(ring, how)
  {
    r := Simplify.Simplify(ring, how.tolerance(ring));
    if |r| < 3 { return []; }
    r := ClipBetween(Latitude, r, -MERCATOR_LIMIT, MERCATOR_LIMIT, how.round);
  }

  method OpenCoast(clipped: Ring) returns (line: Result<Ring, CoastError>)
    ensures line == CoastFor(clipped)
  {
    var wasClipped := MeetsFloor(clipped, -MERCATOR_LIMIT);
    line := Coastline(clipped, wasClipped, -MERCATOR_LIMIT);
  }

  method BuildShape(rings: seq<Ring>, how: Settings) returns (r: Result<Shape, CoastError>)
    ensures r == ShapeOf(rings, how)
  {
    var fill: seq<Ring>, coast: seq<Ring> := [], [];
    for n := 0 to |rings|
      invariant ShapeOf(rings[..n], how) == Ok(Shape(fill, coast))
    {
      OneMoreRing(rings, n, how);
      var clipped := Prepare(rings[n], how);
      if clipped == [] { continue; }
      var filled := FillPolygons(clipped, how.round);
      fill := fill + filled;
      var line := OpenCoast(clipped);
      if line.Err? {
        ErrorStays(rings, n + 1, how);
        return Err(line.error);
      }
      if |line.value| >= 2 {
        coast := coast + [line.value];
      }
    }
    assert rings[..|rings|] == rings;
    return Ok(Shape(fill, coast));
  }

  // ---- What validate finds ----------------------------------------------------------------

  ghost predicate IsCoast(line: Ring) {
    |line| >= 2 && AllInRange(line, Latitude, FLOOR, MERCATOR_LIMIT)
  }

  /** The assertions `validate` makes, apart from the two that something is left. */
  ghost predicate Valid(shape: Shape) {
    && (forall r :: r in shape.fill ==> Drawable(r))
    && (forall line :: line in shape.coast ==> IsCoast(line))
  }

  /** An outline that comes up to the floor and no further: its coast has no beginning. */
  ghost predicate Sunk(outline: Ring) {
    && |outline| >= 3
    && (exists p :: p in outline && p.y == FLOOR)
    && forall p :: p in outline ==> p.y <= FLOOR
  }

  /** An outline that meets the floor and has one vertex off it, no higher than the ceiling:
      its coast would be a point. */
  ghost predicate Spike(outline: Ring) {
    |outline| >= 3 && MeetsFloor(outline, FLOOR) && !Climbs(outline) && |Shore(outline)| == 1
  }

  /** A drawn ring wider than 170 degrees that lies wholly beyond an antimeridian. */
  ghost predicate OffTheMap(drawn: Ring) {
    drawn != [] && !NoWiderThan(drawn, 170000) && (AllWest(drawn, -180000) || AllEast(drawn, 180000))
  }

  lemma SunkIsNotLost(outline: Ring)
    ensures Sunk(outline) ==> !Lost(outline)
  {
    assert Sunk(outline) ==> exists p :: p in outline && p.y == FLOOR;
  }

  /** The coast has no beginning exactly of a sunk outline. */
  lemma NoBeginningIff(outline: Ring, round: Rounding)
    requires Rounds(round) && !Lost(outline)
    ensures CoastFor(Charted(outline, round)).Err? <==> Sunk(outline)
  {
    CoastExists(outline, round);
    NoShoreIff(outline);
    if !Climbs(outline) && Shore(outline) == [] {
      var p :| p in outline && p.y >= FLOOR;
      assert OnFloor(p, FLOOR);
    }
  }

  lemma OpenedCoastLength(charted: Ring)
    requires MeetsFloor(charted, FLOOR) && CoastFor(charted).Ok?
    ensures |CoastFor(charted).value| == |Shore(charted)|
  {
    var line := CoastFor(charted).value;
    CoastLosesNoShore(charted, FLOOR, FirstLeaving(charted, FLOOR, 0) + 1);
    assert |line| == |multiset(line)| == |multiset(Shore(charted))| == |Shore(charted)|;
  }

  /** The coast is no line exactly of a spike. */
  lemma ShortCoastIff(outline: Ring, round: Rounding)
    requires Rounds(round) && !Lost(outline) && CoastFor(Charted(outline, round)).Ok?
    ensures |CoastFor(Charted(outline, round)).value| < 2 <==> Spike(outline)
  {
    var charted := Charted(outline, round);
    ChartedEmptyIff(outline, round);
    ShoreSize(outline, round);
    FloorMetIff(outline, round);
    CoastExists(outline, round);
    if MeetsFloor(charted, FLOOR) { OpenedCoastLength(charted); }
  }

  lemma DrawKeepsValid(shape: Shape, ring: Ring, how: Settings)
    requires Rounds(how.round) && Valid(shape)
    ensures Draw(shape, ring, how).Ok? ==> Valid(Draw(shape, ring, how).value)
  {
    var clipped := Prepared(ring, how);
    PreparedMeaning(ring, how);
    if clipped != [] {
      FillDrawable(Simple(ring, how), how.round);
      CoastMeaning(clipped, MeetsFloor(clipped, FLOOR), FLOOR);
    }
  }

  ghost predicate AddsNoFill(ring: Ring, how: Settings) {
    Lost(Simple(ring, how)) || OffTheMap(Prepared(ring, how))
  }

  ghost predicate AddsNoCoast(ring: Ring, how: Settings) {
    Lost(Simple(ring, how)) || Spike(Simple(ring, how))
  }

  lemma DrawAdds(shape: Shape, ring: Ring, how: Settings)
    requires Rounds(how.round)
    ensures Draw(shape, ring, how).Err? <==> Sunk(Simple(ring, how))
    ensures Draw(shape, ring, how).Ok? ==>
              var after := Draw(shape, ring, how).value;
              && (after.fill == [] <==> shape.fill == [] && AddsNoFill(ring, how))
              && (after.coast == [] <==> shape.coast == [] && AddsNoCoast(ring, how))
  {
    PreparedMeaning(ring, how);
    var simple, drawn := Simple(ring, how), Prepared(ring, how);
    SunkIsNotLost(simple);
    if drawn != [] {
      NoBeginningIff(simple, how.round);
      if CoastFor(drawn).Ok? { ShortCoastIff(simple, how.round); }
      FillEmptyIff(drawn, how.round);
    }
  }

  ghost predicate SomeSunk(rings: seq<Ring>, how: Settings) {
    exists ring :: ring in rings && Sunk(Simple(ring, how))
  }

  ghost predicate NoneFills(rings: seq<Ring>, how: Settings) {
    forall ring :: ring in rings ==> AddsNoFill(ring, how)
  }

  ghost predicate NoneHasCoast(rings: seq<Ring>, how: Settings) {
    forall ring :: ring in rings ==> AddsNoCoast(ring, how)
  }

  /** What is said of a country's shape, of which `made` is what the script makes. */
  ghost predicate ShapeKnown(rings: seq<Ring>, how: Settings, made: Result<Shape, CoastError>) {
    && (made.Err? <==> SomeSunk(rings, how))
    && (made.Ok? ==>
          && Valid(made.value)
          && (made.value.fill == [] <==> NoneFills(rings, how))
          && (made.value.coast == [] <==> NoneHasCoast(rings, how)))
  }

  lemma {:induction false} OneMoreKnown(front: seq<Ring>, last: Ring, how: Settings, shape: Shape)
    requires Rounds(how.round) && ShapeKnown(front, how, Ok(shape))
    ensures ShapeKnown(front + [last], how, Draw(shape, last, how))
  {
    DrawKeepsValid(shape, last, how);
    DrawAdds(shape, last, how);
    OneMoreRings(front, last, how);
  }

  lemma OneMoreRings(front: seq<Ring>, last: Ring, how: Settings)
    ensures SomeSunk(front + [last], how) <==> SomeSunk(front, how) || Sunk(Simple(last, how))
    ensures NoneFills(front + [last], how) <==> NoneFills(front, how) && AddsNoFill(last, how)
    ensures NoneHasCoast(front + [last], how) <==> NoneHasCoast(front, how) && AddsNoCoast(last, how)
  {
    assert forall ring :: ring in front + [last] <==> ring in front || ring == last;
  }

  lemma SunkStays(front: seq<Ring>, last: Ring, how: Settings, error: CoastError)
    requires ShapeKnown(front, how, Err(error))
    ensures ShapeKnown(front + [last], how, Err(error))
  {
    OneMoreRings(front, last, how);
  }

  lemma {:induction false} ShapeIsKnown(rings: seq<Ring>, how: Settings)
    requires Rounds(how.round)
    ensures ShapeKnown(rings, how, ShapeOf(rings, how))
  {
    if rings != [] {
      var front, last := rings[..|rings| - 1], rings[|rings| - 1];
      assert rings == front + [last];
      ShapeIsKnown(front, how);
      match ShapeOf(front, how)
      case Ok(shape) => OneMoreKnown(front, last, how, shape);
      case Err(error) => SunkStays(front, last, how, error);
    }
  }

  /** Whatever rings a country has: the script stops exactly when an outline comes up to the
      floor and no further. If it does not, every ring and line it made passes `validate`;
      there is no fill exactly when every outline is lost or off the map, and no coast
      exactly when every outline is lost or a spike. */
  lemma ShapeIsValid(rings: seq<Ring>, how: Settings)
    requires Rounds(how.round)
    ensures ShapeOf(rings, how).Err? <==> SomeSunk(rings, how)
    ensures ShapeOf(rings, how).Ok? ==>
              && Valid(ShapeOf(rings, how).value)
              && (ShapeOf(rings, how).value.fill == [] <==> NoneFills(rings, how))
              && (ShapeOf(rings, how).value.coast == [] <==> NoneHasCoast(rings, how))
  {
    ShapeIsKnown(rings, how);
  }

  ghost predicate OnTheMap(rings: seq<Ring>) {
    forall ring :: ring in rings ==> AllInRange(ring, Longitude, -180000, 180000)
  }

  lemma OnTheMapStays(ring: Ring, how: Settings)
    requires Rounds(how.round) && AllInRange(ring, Longitude, -180000, 180000)
    ensures !OffTheMap(Prepared(ring, how))
  {
    Simplify.SimplifiedPicks(ring, how.tolerance(ring));
    ClippedBetweenFits(Latitude, Simple(ring, how), FLOOR, MERCATOR_LIMIT, how.round, Longitude, -180000, 180000);
    if Prepared(ring, how) != [] {
      assert InRange(Prepared(ring, how)[0], Longitude, -180000, 180000);
    }
  }

  /** With longitudes within 180 degrees the whole of `validate` passes exactly when some
      outline is neither lost nor a spike and none comes up to the floor and no further. */
  lemma ShapeAcceptedIff(rings: seq<Ring>, how: Settings)
    requires Rounds(how.round) && OnTheMap(rings)
    ensures (ShapeOf(rings, how).Ok? && ShapeOf(rings, how).value.fill != [] && ShapeOf(rings, how).value.coast != [])
       <==> !SomeSunk(rings, how) && !NoneHasCoast(rings, how)
  {
    ShapeIsValid(rings, how);
    if ring :| ring in rings && !AddsNoCoast(ring, how) {
      OnTheMapStays(ring, how);
      assert !AddsNoFill(ring, how);
    }
  }
}
