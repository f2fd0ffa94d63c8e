/** The entity matcher: editorial identifiers closed under the patches that carry
    new ones, and references resolved against the closure. */
module Matching {
  import opened Types
  import opened Sorting
  import opened Sets

  type Identifiers = map<Identifier, string>

  ghost predicate Extends(more: Identifiers, less: Identifiers) {
    forall i :: i in less ==> i in more && more[i] == less[i]
  }

  // ---- One reference, one patch, one pass, all passes ------------------------

  function FirstMatch(ids: Identifiers, ref: Reference): Option<string> {
    if ref == [] then None
    else if ref[0] in ids then Some(ids[ref[0]])
    else FirstMatch(ids, ref[1..])
  }

  /** The one key all known identifiers of the reference agree on. */
  function ResolveReference(ids: Identifiers, ref: Reference): Option<string> {
    var first := FirstMatch(ids, ref);
    if first.Some? && forall i :: i in ref && i in ids ==> ids[i] == first.value then first else None
  }

  lemma {:induction false} FirstMatchFinds(ids: Identifiers, ref: Reference)
    ensures FirstMatch(ids, ref).Some? <==> exists i :: i in ref && i in ids
    ensures FirstMatch(ids, ref).Some? ==>
              exists i :: i in ref && i in ids && ids[i] == FirstMatch(ids, ref).value
  {
    if ref != [] && ref[0] !in ids {
      FirstMatchFinds(ids, ref[1..]);
    }
  }

  /** A reference resolves to `k` exactly when `k` is the only key its identifiers lead to. */
  lemma ResolveReferenceMeaning(ids: Identifiers, ref: Reference, k: string)
    ensures ResolveReference(ids, ref) == Some(k)
       <==> (set i | i in ref && i in ids :: ids[i]) == {k}
  {
    var found := set i | i in ref && i in ids :: ids[i];
    FirstMatchFinds(ids, ref);
    if ResolveReference(ids, ref) == Some(k) {
      assert k in found;
      assert forall v :: v in found ==> v == k;
    }
    if found == {k} {
      assert k in found;
      var i :| i in ref && i in ids && ids[i] == k;
      forall i | i in ref && i in ids ensures ids[i] == k { assert ids[i] in found; }
    }
  }

  /** The identifier a patch teaches, if it is one of the four identifying paths. */
  function Learns(p: FieldPatch): Option<Identifier> {
    if !p.value.Str? then None
    else if p.path == "codes.isoAlpha2" then Some(Identifier(IsoAlpha2, p.value.s))
    else if p.path == "codes.isoAlpha3" then Some(Identifier(IsoAlpha3, p.value.s))
    else if p.path == "codes.m49" then Some(Identifier(M49, p.value.s))
    else if p.path == "identifiers.wikidataId" then Some(Identifier(WikidataId, p.value.s))
    else None
  }

  /** The name a kind has in a reference. */
  function KindName(kind: Kind): string {
    match kind
    case IsoAlpha2 => "isoAlpha2"
    case IsoAlpha3 => "isoAlpha3"
    case M49 => "m49"
    case IsoSubdivision => "isoSubdivision"
    case LocalCode => "localCode"
    case FipsCode => "fipsCode"
    case WikidataId => "wikidataId"
    case EditorialKey => "editorialKey"
    case CustomCode => "customCode"
  }

  /** The path under which a source states an identifier of this kind, if patches can teach it:
      the kind is its last segment. */
  function PathOf(kind: Kind): Option<string> {
    match kind
    case IsoAlpha2 => Some("codes." + KindName(kind))
    case IsoAlpha3 => Some("codes." + KindName(kind))
    case M49 => Some("codes." + KindName(kind))
    case WikidataId => Some("identifiers." + KindName(kind))
    case _ => None
  }

  lemma {:induction false} Paths()
    ensures PathOf(IsoAlpha2) == Some("codes.isoAlpha2") && PathOf(IsoAlpha3) == Some("codes.isoAlpha3")
    ensures PathOf(M49) == Some("codes.m49") && PathOf(WikidataId) == Some("identifiers.wikidataId")
  {
    assert "codes." + "isoAlpha2" == "codes.isoAlpha2" && "codes." + "isoAlpha3" == "codes.isoAlpha3";
    assert "codes." + "m49" == "codes.m49" && "identifiers." + "wikidataId" == "identifiers.wikidataId";
  }

  lemma {:induction false} PathsDiffer(k: Kind, l: Kind)
    requires PathOf(k).Some? && PathOf(k) == PathOf(l)
    ensures k == l
  {
    Paths();
    assert PathOf(IsoAlpha2).value[14] == '2' && PathOf(IsoAlpha3).value[14] == '3';
    assert |PathOf(M49).value| == 9 && |PathOf(WikidataId).value| == 22;
  }

  /** A patch teaches the string it states, as the kind whose path it is for. */
  lemma {:induction false} LearnsMeaning(p: FieldPatch, i: Identifier)
    ensures Learns(p) == Some(i) <==> PathOf(i.kind) == Some(p.path) && p.value == Str(i.value)
  {
    Paths();
    if PathOf(i.kind) == Some(p.path) {
      match Learns(p)
      case None =>
      case Some(j) => PathsDiffer(i.kind, j.kind);
    }
  }

  function Step(ids: Identifiers, p: FieldPatch): Identifiers {
    var key := ResolveReference(ids, p.entity);
    var learnt := Learns(p);
    if key.Some? && learnt.Some? && learnt.value !in ids then ids[learnt.value := key.value] else ids
  }

  function Pass(ids: Identifiers, patches: seq<FieldPatch>): Identifiers
    decreases |patches|
  {
    if patches == [] then ids else Pass(Step(ids, patches[0]), patches[1..])
  }

  function Targets(patches: seq<FieldPatch>): set<Identifier> {
    set p | p in patches && Learns(p).Some? :: Learns(p).value
  }

  lemma {:induction false} PassExtends(ids: Identifiers, patches: seq<FieldPatch>)
    ensures Extends(Pass(ids, patches), ids)
    ensures Pass(ids, patches).Keys <= ids.Keys + Targets(patches)
    decreases |patches|
  {
    if patches != [] {
      PassExtends(Step(ids, patches[0]), patches[1..]);
      assert Targets(patches[1..]) <= Targets(patches);
      if Learns(patches[0]).Some? { assert Learns(patches[0]).value in Targets(patches); }
    }
  }

  lemma Progress(ids: Identifiers, patches: seq<FieldPatch>)
    ensures Pass(ids, patches) != ids ==>
              |Targets(patches) - Pass(ids, patches).Keys| < |Targets(patches) - ids.Keys|
  {
    PassExtends(ids, patches);
    var next := Pass(ids, patches);
    if next != ids {
      var t :| t in next && t !in ids;
      Smaller(Targets(patches) - next.Keys, Targets(patches) - ids.Keys, t);
    }
  }

  function Close(ids: Identifiers, patches: seq<FieldPatch>): Identifiers
    decreases |Targets(patches) - ids.Keys|
  {
    Progress(ids, patches);
    var next := Pass(ids, patches);
    if next == ids then ids else Close(next, patches)
  }

  // ---- The matcher's loops ----------------------------------------------------

  function SeedOne(ids: Identifiers, entries: Reference, key: string): Identifiers
    decreases |entries|
  {
    if entries == [] then ids else SeedOne(ids[entries[0] := key], entries[1..], key)
  }

  function Seeds(ids: Identifiers, entities: seq<EditorialEntity>): Identifiers
    decreases |entities|
  {
    if entities == [] then ids
    else
      var e := entities[0];
      Seeds(SeedOne(ids[Identifier(EditorialKey, e.key) := e.key], e.identifiers, e.key), entities[1..])
  }

  /** The entity states the identifier: it is made of its key, or one of its own. */
  ghost predicate States(e: EditorialEntity, i: Identifier) {
    i == Identifier(EditorialKey, e.key) || i in e.identifiers
  }

  /** Entity `n` is the last that states `i`. */
  ghost predicate StatesLast(entities: seq<EditorialEntity>, n: int, i: Identifier) {
    && 0 <= n < |entities| && States(entities[n], i)
    && forall m :: n < m < |entities| ==> !States(entities[m], i)
  }

  lemma {:induction false} SeedOneMeaning(ids: Identifiers, entries: Reference, key: string, i: Identifier)
    ensures i in SeedOne(ids, entries, key) <==> i in ids || i in entries
    ensures i in entries ==> SeedOne(ids, entries, key)[i] == key
    ensures i in ids && i !in entries ==> SeedOne(ids, entries, key)[i] == ids[i]
    decreases |entries|
  {
    if entries != [] { SeedOneMeaning(ids[entries[0] := key], entries[1..], key, i); }
  }

  lemma {:induction false} SeedsOnTop(ids: Identifiers, entities: seq<EditorialEntity>, i: Identifier)
    ensures (forall n :: 0 <= n < |entities| ==> !States(entities[n], i)) ==>
              && (i in Seeds(ids, entities) <==> i in ids)
              && (i in ids ==> Seeds(ids, entities)[i] == ids[i])
    ensures forall n :: StatesLast(entities, n, i) ==>
              i in Seeds(ids, entities) && Seeds(ids, entities)[i] == entities[n].key
    decreases |entities|
  {
    if entities != [] {
      var e, rest := entities[0], entities[1..];
      var start := ids[Identifier(EditorialKey, e.key) := e.key];
      SeedOneMeaning(start, e.identifiers, e.key, i);
      SeedsOnTop(SeedOne(start, e.identifiers, e.key), rest, i);
      forall n | 0 < n < |entities| ensures rest[n - 1] == entities[n] {}
      forall n | 0 < n && StatesLast(entities, n, i) ensures StatesLast(rest, n - 1, i) {}
    }
  }

  lemma {:induction false} SomeStatesLast(entities: seq<EditorialEntity>, i: Identifier) returns (n: int)
    requires exists m :: 0 <= m < |entities| && States(entities[m], i)
    ensures StatesLast(entities, n, i)
  {
    var last := |entities| - 1;
    if States(entities[last], i) {
      n := last;
    } else {
      n := SomeStatesLast(entities[..last], i);
    }
  }

  /** The seeds are exactly the identifiers the entities state, each with the key of the last
      entity that states it. */
  lemma SeedsMeaning(entities: seq<EditorialEntity>, i: Identifier)
    ensures i in Seeds(map[], entities) <==> exists n :: 0 <= n < |entities| && States(entities[n], i)
    ensures forall n :: StatesLast(entities, n, i) ==>
              i in Seeds(map[], entities) && Seeds(map[], entities)[i] == entities[n].key
  {
    SeedsOnTop(map[], entities, i);
    if n :| 0 <= n < |entities| && States(entities[n], i) {
      var last := SomeStatesLast(entities, i);
    }
  }

  method SeedIdentifiers(entities: seq<EditorialEntity>) returns (ids: Identifiers)
    ensures ids == Seeds(map[], entities)
    ensures forall i :: i in ids <==> exists n :: 0 <= n < |entities| && States(entities[n], i)
    ensures forall n, i :: StatesLast(entities, n, i) ==> i in ids && ids[i] == entities[n].key
  {
    forall i ensures i in Seeds(map[], entities) <==> exists n :: 0 <= n < |entities| && States(entities[n], i) {
      SeedsMeaning(entities, i);
    }
    forall n, i | StatesLast(entities, n, i)
      ensures i in Seeds(map[], entities) && Seeds(map[], entities)[i] == entities[n].key
    {
      SeedsMeaning(entities, i);
    }
    ids := map[];
    for n := 0 to |entities|
      invariant Seeds(ids, entities[n..]) == Seeds(map[], entities)
    {
      var e := entities[n];
      ghost var start := ids[Identifier(EditorialKey, e.key) := e.key];
      ids := ids[Identifier(EditorialKey, e.key) := e.key];
      for m := 0 to |e.identifiers|
        invariant SeedOne(ids, e.identifiers[m..], e.key) == SeedOne(start, e.identifiers, e.key)
      {
        assert e.identifiers[m..][1..] == e.identifiers[m + 1..];
        ids := ids[e.identifiers[m] := e.key];
      }
      assert entities[n..][1..] == entities[n + 1..];
    }
  }

  function Identifying(patches: seq<FieldPatch>): seq<FieldPatch> {
    Filter(patches, (p: FieldPatch) => Learns(p).Some?)
  }

  /** One pass over the patches, and whether it has changed anything. */
  method RunPass(start: Identifiers, patches: seq<FieldPatch>) returns (ids: Identifiers, changed: bool)
    ensures ids == Pass(start, patches)
    ensures changed <==> ids != start
  {
    ids, changed := start, false;
    for n := 0 to |patches|
      invariant Pass(ids, patches[n..]) == Pass(start, patches)
      invariant Extends(ids, start)
      invariant changed <==> ids != start
    {
      assert patches[n..][1..] == patches[n + 1..];
      var key := ResolveReference(ids, patches[n].entity);
      if key.Some? {
        var learnt := Learns(patches[n]);
        if learnt.Some? && learnt.value !in ids {
          ids := ids[learnt.value := key.value];
          changed := true;
        }
      }
    }
  }

  /** The `while (changed)` loop. It makes at most one pass more than there are
      identifying patches. */
  method CloseIdentifiers(seeds: Identifiers, patches: seq<FieldPatch>)
    returns (ids: Identifiers, ghost passes: nat)
    ensures ids == Close(seeds, patches)
    ensures passes <= |Identifying(patches)| + 1
  {
    ids, passes := seeds, 0;
    var changed := true;
    ghost var open := |Targets(patches) - ids.Keys|;
    while changed
      invariant Close(ids, patches) == Close(seeds, patches)
      invariant !changed ==> Close(ids, patches) == ids
      invariant open == |Targets(patches) - ids.Keys|
      invariant passes + open <= |Targets(patches) - seeds.Keys| + if changed then 0 else 1
      decreases changed, open
    {
      Progress(ids, patches);
      ids, changed := RunPass(ids, patches);
      passes := passes + 1;
      open := |Targets(patches) - ids.Keys|;
    }
    TargetsCount(patches);
    SubsetSize(Targets(patches) - seeds.Keys, Targets(patches));
  }

  lemma TargetsOneMore(p: FieldPatch, rest: seq<FieldPatch>)
    ensures Targets([p] + rest) == Targets(rest) + if Learns(p).Some? then {Learns(p).value} else {}
  {
    forall t ensures t in Targets([p] + rest) <==> t in Targets(rest) || Learns(p) == Some(t) {
      if Learns(p) == Some(t) { assert p in [p] + rest; }
      if q :| q in rest && Learns(q) == Some(t) { assert q in [p] + rest; }
    }
  }

  lemma {:induction false} TargetsCount(patches: seq<FieldPatch>)
    ensures |Targets(patches)| <= |Identifying(patches)|
  {
    if patches != [] {
      TargetsCount(patches[1..]);
      assert patches == [patches[0]] + patches[1..];
      TargetsOneMore(patches[0], patches[1..]);
    }
  }

  // ---- What one closure keeps -------------------------------------------------

  lemma {:induction false} CloseExtends(ids: Identifiers, patches: seq<FieldPatch>)
    ensures Extends(Close(ids, patches), ids)
    ensures Pass(Close(ids, patches), patches) == Close(ids, patches)
    decreases |Targets(patches) - ids.Keys|
  {
    Progress(ids, patches);
    PassExtends(ids, patches);
    if Pass(ids, patches) != ids { CloseExtends(Pass(ids, patches), patches); }
  }

  lemma {:induction false} QuietPass(ids: Identifiers, patches: seq<FieldPatch>, p: FieldPatch)
    requires Pass(ids, patches) == ids && p in patches
    ensures Step(ids, p) == ids
  {
    var next := Step(ids, patches[0]);
    PassExtends(next, patches[1..]);
    assert next == ids;
    if p != patches[0] { QuietPass(ids, patches[1..], p); }
  }

  /** At exit, whatever resolves has its identifier in the map. */
  lemma ClosedAtExit(seeds: Identifiers, patches: seq<FieldPatch>, p: FieldPatch)
    requires p in patches && Learns(p).Some?
    requires ResolveReference(Close(seeds, patches), p.entity).Some?
    ensures Learns(p).value in Close(seeds, patches)
  {
    CloseExtends(seeds, patches);
    QuietPass(Close(seeds, patches), patches, p);
  }

  lemma {:induction false} SeedOneValues(ids: Identifiers, entries: Reference, key: string, keys: set<string>)
    requires key in keys && ids.Values <= keys
    ensures SeedOne(ids, entries, key).Values <= keys
    decreases |entries|
  {
    if entries != [] { SeedOneValues(ids[entries[0] := key], entries[1..], key, keys); }
  }

  lemma {:induction false} SeedsValues(ids: Identifiers, entities: seq<EditorialEntity>, keys: set<string>)
    requires ids.Values <= keys && forall e :: e in entities ==> e.key in keys
    ensures Seeds(ids, entities).Values <= keys
    decreases |entities|
  {
    if entities != [] {
      var e := entities[0];
      var start := ids[Identifier(EditorialKey, e.key) := e.key];
      SeedOneValues(start, e.identifiers, e.key, keys);
      SeedsValues(SeedOne(start, e.identifiers, e.key), entities[1..], keys);
    }
  }

  lemma {:induction false} PassValues(ids: Identifiers, patches: seq<FieldPatch>)
    ensures Pass(ids, patches).Values <= ids.Values
    decreases |patches|
  {
    if patches != [] {
      FirstMatchFinds(ids, patches[0].entity);
      assert Step(ids, patches[0]).Values <= ids.Values;
      PassValues(Step(ids, patches[0]), patches[1..]);
    }
  }

  lemma {:induction false} CloseValues(ids: Identifiers, patches: seq<FieldPatch>)
    ensures Close(ids, patches).Values <= ids.Values
    decreases |Targets(patches) - ids.Keys|
  {
    Progress(ids, patches);
    PassValues(ids, patches);
    if Pass(ids, patches) != ids { CloseValues(Pass(ids, patches), patches); }
  }

  /** No patch can make an identifier lead anywhere but to an editorial entity, and none
      can redirect an identifier the catalog itself states. */
  lemma ClosureStaysEditorial(entities: seq<EditorialEntity>, patches: seq<FieldPatch>)
    ensures var closed := Close(Seeds(map[], entities), patches);
      && (forall i :: i in closed ==> exists e :: e in entities && e.key == closed[i])
      && Extends(closed, Seeds(map[], entities))
  {
    var keys := set e | e in entities :: e.key;
    SeedsValues(map[], entities, keys);
    CloseValues(Seeds(map[], entities), patches);
    CloseExtends(Seeds(map[], entities), patches);
    var closed := Close(Seeds(map[], entities), patches);
    forall i | i in closed ensures exists e :: e in entities && e.key == closed[i] {
      assert closed[i] in closed.Values;
      assert closed[i] in keys;
    }
  }

  // ---- Derivations --------------------------------------------------------------

  /** `chain` leads from a seed to identifier `i` with key `k`: each patch in it names
      an identifier the one before has reached and teaches the next. */
  ghost predicate Derives(seeds: Identifiers, chain: seq<FieldPatch>, i: Identifier, k: string) {
    if chain == [] then i in seeds && seeds[i] == k
    else
      var p := chain[|chain| - 1];
      && Learns(p) == Some(i)
      && i !in seeds
      && exists j :: j in p.entity && Derives(seeds, chain[..|chain| - 1], j, k)
  }

  ghost predicate Within(chain: seq<FieldPatch>, patches: seq<FieldPatch>) {
    forall p :: p in chain ==> p in patches
  }

  ghost predicate Derivable(seeds: Identifiers, patches: seq<FieldPatch>, i: Identifier, k: string) {
    exists chain :: Within(chain, patches) && Derives(seeds, chain, i, k)
  }

  ghost predicate Grounded(seeds: Identifiers, patches: seq<FieldPatch>, ids: Identifiers) {
    Extends(ids, seeds) && forall i :: i in ids ==> Derivable(seeds, patches, i, ids[i])
  }

  lemma DeriveNext(seeds: Identifiers, patches: seq<FieldPatch>, p: FieldPatch, j: Identifier, k: string)
    requires p in patches && j in p.entity && Derivable(seeds, patches, j, k)
    requires Learns(p).Some? && Learns(p).value !in seeds
    ensures Derivable(seeds, patches, Learns(p).value, k)
  {
    var chain :| Within(chain, patches) && Derives(seeds, chain, j, k);
    var longer := chain + [p];
    assert longer[..|longer| - 1] == chain;
    assert Within(longer, patches) && Derives(seeds, longer, Learns(p).value, k);
  }

  lemma StepGrounded(seeds: Identifiers, patches: seq<FieldPatch>, ids: Identifiers, p: FieldPatch)
    requires Grounded(seeds, patches, ids) && p in patches
    ensures Grounded(seeds, patches, Step(ids, p))
  {
    if Step(ids, p) != ids {
      FirstMatchFinds(ids, p.entity);
      var k := ResolveReference(ids, p.entity).value;
      var j :| j in p.entity && j in ids && ids[j] == k;
      DeriveNext(seeds, patches, p, j, k);
    }
  }

  lemma {:induction false} PassGrounded(seeds: Identifiers, patches: seq<FieldPatch>, ids: Identifiers,
                                        rest: seq<FieldPatch>)
    requires Grounded(seeds, patches, ids) && Within(rest, patches)
    ensures Grounded(seeds, patches, Pass(ids, rest))
    decreases |rest|
  {
    if rest != [] {
      StepGrounded(seeds, patches, ids, rest[0]);
      PassGrounded(seeds, patches, Step(ids, rest[0]), rest[1..]);
    }
  }

  lemma {:induction false} CloseGrounded(seeds: Identifiers, patches: seq<FieldPatch>, ids: Identifiers)
    requires Grounded(seeds, patches, ids)
    ensures Grounded(seeds, patches, Close(ids, patches))
    decreases |Targets(patches) - ids.Keys|
  {
    Progress(ids, patches);
    PassGrounded(seeds, patches, ids, patches);
    if Pass(ids, patches) != ids { CloseGrounded(seeds, patches, Pass(ids, patches)); }
  }

  /** Every entry of the closure is derived, in any order and for any references. */
  lemma ClosureIsDerived(seeds: Identifiers, patches: seq<FieldPatch>, i: Identifier)
    requires i in Close(seeds, patches)
    ensures Derivable(seeds, patches, i, Close(seeds, patches)[i])
  {
    forall j | j in seeds ensures Derivable(seeds, patches, j, seeds[j]) {
      assert Within([], patches) && Derives(seeds, [], j, seeds[j]);
    }
    CloseGrounded(seeds, patches, seeds);
  }

  /** `m` holds the seeds and follows every patch, whichever identifier it names. */
  ghost predicate Follows(m: Identifiers, seeds: Identifiers, patches: seq<FieldPatch>) {
    && Extends(m, seeds)
    && forall p, j :: p in patches && Learns(p).Some? && Learns(p).value !in seeds && j in p.entity && j in m ==>
         Learns(p).value in m && m[Learns(p).value] == m[j]
  }

  lemma {:induction false} DerivationsFollow(seeds: Identifiers, patches: seq<FieldPatch>, m: Identifiers,
                                             chain: seq<FieldPatch>, i: Identifier, k: string)
    requires Follows(m, seeds, patches) && Within(chain, patches) && Derives(seeds, chain, i, k)
    ensures i in m && m[i] == k
  {
    if chain != [] {
      var p, front := chain[|chain| - 1], chain[..|chain| - 1];
      var j :| j in p.entity && Derives(seeds, front, j, k);
      DerivationsFollow(seeds, patches, m, front, j, k);
    }
  }

  // ---- Order independence -------------------------------------------------------

  /** No identifier is derived with two keys. */
  ghost predicate DerivationsAgree(seeds: Identifiers, patches: seq<FieldPatch>) {
    forall i, k, l :: Derivable(seeds, patches, i, k) && Derivable(seeds, patches, i, l) ==> k == l
  }

  lemma {:induction false} DerivedIsReached(seeds: Identifiers, patches: seq<FieldPatch>,
                                            chain: seq<FieldPatch>, i: Identifier, k: string)
    requires DerivationsAgree(seeds, patches)
    requires Within(chain, patches) && Derives(seeds, chain, i, k)
    ensures i in Close(seeds, patches) && Close(seeds, patches)[i] == k
  {
    var closed := Close(seeds, patches);
    CloseExtends(seeds, patches);
    if chain != [] {
      var p, front := chain[|chain| - 1], chain[..|chain| - 1];
      var j :| j in p.entity && Derives(seeds, front, j, k);
      DerivedIsReached(seeds, patches, front, j, k);
      forall x | x in p.entity && x in closed ensures closed[x] == k {
        ClosureIsDerived(seeds, patches, x);
        DeriveNext(seeds, patches, p, x, closed[x]);
        assert Derivable(seeds, patches, i, k);
      }
      FirstMatchFinds(closed, p.entity);
      ClosedAtExit(seeds, patches, p);
      ClosureIsDerived(seeds, patches, i);
      assert Derivable(seeds, patches, i, k);
    }
  }

  /** When nothing disagrees the closure is exactly what can be derived, which is the
      least map that holds the seeds and follows every patch. */
  lemma ClosureIsLeastFixpoint(seeds: Identifiers, patches: seq<FieldPatch>)
    requires DerivationsAgree(seeds, patches)
    ensures forall i, k :: (i in Close(seeds, patches) && Close(seeds, patches)[i] == k)
                      <==> Derivable(seeds, patches, i, k)
    ensures Follows(Close(seeds, patches), seeds, patches)
    ensures forall m :: Follows(m, seeds, patches) ==> Extends(m, Close(seeds, patches))
  {
    var closed := Close(seeds, patches);
    CloseExtends(seeds, patches);
    forall i, k | Derivable(seeds, patches, i, k) ensures i in closed && closed[i] == k {
      var chain :| Within(chain, patches) && Derives(seeds, chain, i, k);
      DerivedIsReached(seeds, patches, chain, i, k);
    }
    forall i | i in closed ensures Derivable(seeds, patches, i, closed[i]) {
      ClosureIsDerived(seeds, patches, i);
    }
    forall p, j | p in patches && Learns(p).Some? && Learns(p).value !in seeds && j in p.entity && j in closed
      ensures Learns(p).value in closed && closed[Learns(p).value] == closed[j]
    {
      DeriveNext(seeds, patches, p, j, closed[j]);
    }
    forall m, i | Follows(m, seeds, patches) && i in closed ensures i in m && m[i] == closed[i] {
      var chain :| Within(chain, patches) && Derives(seeds, chain, i, closed[i]);
      DerivationsFollow(seeds, patches, m, chain, i, closed[i]);
    }
  }

  /** Then any list of the same patches, in any order, closes to the same map. */
  lemma AgreementGivesOrderIndependence(seeds: Identifiers, patches: seq<FieldPatch>, other: seq<FieldPatch>)
    requires DerivationsAgree(seeds, patches)
    requires Within(other, patches) && Within(patches, other)
    ensures Close(seeds, other) == Close(seeds, patches)
  {
    forall i, k ensures Derivable(seeds, other, i, k) == Derivable(seeds, patches, i, k) {
      SameDerivations(seeds, patches, other, i, k);
      SameDerivations(seeds, other, patches, i, k);
    }
    ClosureIsLeastFixpoint(seeds, patches);
    ClosureIsLeastFixpoint(seeds, other);
    var a, b := Close(seeds, patches), Close(seeds, other);
    forall i ensures (i in a <==> i in b) && (i in a ==> a[i] == b[i]) {
      if i in a { assert Derivable(seeds, other, i, a[i]); }
      if i in b { assert Derivable(seeds, patches, i, b[i]); }
    }
  }

  lemma SameDerivations(seeds: Identifiers, from: seq<FieldPatch>, to: seq<FieldPatch>, i: Identifier, k: string)
    requires Within(from, to)
    ensures Derivable(seeds, from, i, k) ==> Derivable(seeds, to, i, k)
  {
    if Derivable(seeds, from, i, k) {
      var chain :| Within(chain, from) && Derives(seeds, chain, i, k);
      assert Within(chain, to);
    }
  }

  ghost predicate SingleIdentifier(patches: seq<FieldPatch>) {
    forall p :: p in patches ==> |p.entity| == 1
  }

  /** Order cannot matter: every permutation of the patches closes to the same map. */
  ghost predicate OrderIndependent(seeds: Identifiers, patches: seq<FieldPatch>) {
    forall q: seq<FieldPatch> :: multiset(q) == multiset(patches) ==> Close(seeds, q) == Close(seeds, patches)
  }

  lemma {:induction false} PrefixDerives(seeds: Identifiers, chain: seq<FieldPatch>, i: Identifier, k: string, n: nat)
    requires SingleIdentifier(chain) && Derives(seeds, chain, i, k) && n < |chain|
    ensures Learns(chain[n]).Some? && Derives(seeds, chain[..n + 1], Learns(chain[n]).value, k)
  {
    if n + 1 == |chain| {
      assert chain[..n + 1] == chain;
    } else {
      var front := chain[..|chain| - 1];
      var j :| j in chain[|chain| - 1].entity && Derives(seeds, front, j, k);
      PrefixDerives(seeds, front, j, k, n);
      assert front[..n + 1] == chain[..n + 1];
    }
  }

  lemma {:induction false} DistinctChain(seeds: Identifiers, chain: seq<FieldPatch>, i: Identifier, k: string)
    returns (short: seq<FieldPatch>)
    requires SingleIdentifier(chain) && Derives(seeds, chain, i, k)
    ensures Within(short, chain) && Distinct(short) && Derives(seeds, short, i, k)
  {
    if chain == [] {
      short := [];
    } else {
      var p, front := chain[|chain| - 1], chain[..|chain| - 1];
      var j :| j in p.entity && Derives(seeds, front, j, k);
      var before := DistinctChain(seeds, front, j, k);
      short := ExtendDistinct(seeds, chain, before, p, i, j, k);
    }
  }

  lemma ExtendDistinct(seeds: Identifiers, chain: seq<FieldPatch>, before: seq<FieldPatch>, p: FieldPatch,
                       i: Identifier, j: Identifier, k: string)
    returns (short: seq<FieldPatch>)
    requires Within(before, chain) && SingleIdentifier(chain) && Distinct(before) && Derives(seeds, before, j, k)
    requires p in chain && j in p.entity && Learns(p) == Some(i) && i !in seeds
    ensures Within(short, chain) && Distinct(short) && Derives(seeds, short, i, k)
  {
    if p in before {
      var n :| 0 <= n < |before| && before[n] == p;
      PrefixDerives(seeds, before, j, k, n);
      short := before[..n + 1];
    } else {
      short := before + [p];
      assert short[..|short| - 1] == before;
    }
  }

  lemma {:induction false} PassConcat(ids: Identifiers, a: seq<FieldPatch>, b: seq<FieldPatch>)
    ensures Pass(ids, a + b) == Pass(Pass(ids, a), b)
    decreases |a|
  {
    if a == [] {
      assert a + b == b;
    } else {
      assert (a + b)[1..] == a[1..] + b;
      PassConcat(Step(ids, a[0]), a[1..], b);
    }
  }

  /** Run in its own order, a chain reaches its identifier in one pass. */
  lemma {:induction false} ChainRuns(seeds: Identifiers, chain: seq<FieldPatch>, i: Identifier, k: string)
    requires SingleIdentifier(chain) && Derives(seeds, chain, i, k)
    ensures var ids := Pass(seeds, chain);
      && i in ids && ids[i] == k
      && forall x :: x in ids && x !in seeds ==> ids[x] == k
  {
    if chain != [] {
      var p, front := chain[|chain| - 1], chain[..|chain| - 1];
      var j :| j in p.entity && Derives(seeds, front, j, k);
      ChainRuns(seeds, front, j, k);
      assert chain == front + [p];
      PassConcat(seeds, front, [p]);
      PassOne(Pass(seeds, front), p);
      assert p in chain && p.entity == [j];
      StepLearns(seeds, Pass(seeds, front), p, i, j, k);
    }
  }

  lemma {:induction false} StepLearns(seeds: Identifiers, ids: Identifiers, p: FieldPatch, i: Identifier,
                                      j: Identifier, k: string)
    requires p.entity == [j] && Learns(p) == Some(i) && i !in seeds && j in ids && ids[j] == k
    requires forall x :: x in ids && x !in seeds ==> ids[x] == k
    ensures i in Step(ids, p) && Step(ids, p)[i] == k
    ensures forall x :: x in Step(ids, p) && x !in seeds ==> Step(ids, p)[x] == k
  {
    ResolveSingle(ids, j);
  }

  lemma ResolveSingle(ids: Identifiers, j: Identifier)
    requires j in ids
    ensures ResolveReference(ids, [j]) == Some(ids[j])
  {
  }

  lemma PassOne(ids: Identifiers, p: FieldPatch)
    ensures Pass(ids, [p]) == Step(ids, p)
  {
    assert [p][1..] == [];
  }

  lemma {:induction false} SequenceOf<T>(m: multiset<T>) returns (s: seq<T>)
    ensures multiset(s) == m
    decreases |m|
  {
    if x :| x in m {
      var rest := SequenceOf(m - multiset{x});
      s := [x] + rest;
    } else {
      s := [];
    }
  }

  lemma {:induction false} DistinctIsSubMultiset<T(!new)>(a: seq<T>, b: seq<T>)
    requires Distinct(a) && forall x :: x in a ==> x in b
    ensures multiset(a) <= multiset(b)
  {
    forall x ensures multiset(a)[x] <= multiset(b)[x] {
      DistinctOnce(a, x);
      if x in a { assert x in multiset(b); }
    }
  }

  lemma {:induction false} DistinctOnce<T(!new)>(a: seq<T>, x: T)
    requires Distinct(a)
    ensures multiset(a)[x] == if x in a then 1 else 0
  {
    if a != [] {
      DistinctOnce(a[1..], x);
      assert a == [a[0]] + a[1..];
    }
  }

  /** Any derivation can be made to win by the order the patches come in. */
  lemma {:induction false} SomeOrderReaches(seeds: Identifiers, patches: seq<FieldPatch>, i: Identifier, k: string)
    returns (q: seq<FieldPatch>)
    requires SingleIdentifier(patches) && Derivable(seeds, patches, i, k)
    ensures multiset(q) == multiset(patches)
    ensures i in Close(seeds, q) && Close(seeds, q)[i] == k
  {
    var chain :| Within(chain, patches) && Derives(seeds, chain, i, k);
    var short := DistinctChain(seeds, chain, i, k);
    DistinctIsSubMultiset(short, patches);
    var rest := SequenceOf(multiset(patches) - multiset(short));
    q := short + rest;
    FirstChainWins(seeds, short, rest, i, k);
  }

  lemma {:induction false} FirstChainWins(seeds: Identifiers, chain: seq<FieldPatch>, rest: seq<FieldPatch>,
                                          i: Identifier, k: string)
    requires SingleIdentifier(chain) && Derives(seeds, chain, i, k)
    ensures i in Close(seeds, chain + rest) && Close(seeds, chain + rest)[i] == k
  {
    var q := chain + rest;
    ChainRuns(seeds, chain, i, k);
    PassConcat(seeds, chain, rest);
    PassExtends(Pass(seeds, chain), rest);
    CloseExtends(Pass(seeds, q), q);
    Progress(seeds, q);
  }

  /** With one identifier to a reference, the order of the patches cannot matter exactly
      when no two derivations disagree. */
  lemma OrderIndependenceIff(seeds: Identifiers, patches: seq<FieldPatch>)
    requires SingleIdentifier(patches)
    ensures OrderIndependent(seeds, patches) <==> DerivationsAgree(seeds, patches)
  {
    if DerivationsAgree(seeds, patches) {
      forall q: seq<FieldPatch> | multiset(q) == multiset(patches)
        ensures Close(seeds, q) == Close(seeds, patches)
      {
        assert forall p :: p in q <==> p in multiset(q);
        AgreementGivesOrderIndependence(seeds, patches, q);
      }
    }
    if OrderIndependent(seeds, patches) {
      forall i, k, l | Derivable(seeds, patches, i, k) && Derivable(seeds, patches, i, l) ensures k == l {
        var a := SomeOrderReaches(seeds, patches, i, k);
        var b := SomeOrderReaches(seeds, patches, i, l);
      }
    }
  }

  /** A reference with two identifiers can see one of them before a later patch makes it
      ambiguous, so there the order does matter. */
  lemma {:induction false} TwoIdentifiersOrderMatters(a: Identifier, b: Identifier, c: Identifier, t: Identifier,
                                                      k: string, l: string, both: FieldPatch, one: FieldPatch)
    requires a != b && a != c && a != t && b != c && b != t && c != t && k != l
    requires both.entity == [a, b] && Learns(both) == Some(t)
    requires one.entity == [c] && Learns(one) == Some(b)
    ensures t in Close(map[a := k, c := l], [both, one])
    ensures t !in Close(map[a := k, c := l], [one, both])
  {
    var seeds: Identifiers := map[a := k, c := l];
    PassTwo(seeds, both, one);
    assert ResolveReference(seeds, both.entity) == Some(k);
    PassExtends(Step(seeds, both), [one]);
    Progress(seeds, [both, one]);
    CloseExtends(Pass(seeds, [both, one]), [both, one]);
    AmbiguousStays(seeds, a, b, c, t, k, l, both, one);
  }

  lemma ResolveAmbiguous(ids: Identifiers, a: Identifier, b: Identifier)
    requires a in ids && b in ids && ids[a] != ids[b]
    ensures ResolveReference(ids, [a, b]) == None
  {
    assert a in [a, b] && b in [a, b];
  }

  lemma {:induction false} AmbiguousStays(seeds: Identifiers, a: Identifier, b: Identifier, c: Identifier,
                                          t: Identifier, k: string, l: string, both: FieldPatch, one: FieldPatch)
    requires a != b && a != c && a != t && b != c && b != t && c != t && k != l
    requires both.entity == [a, b] && Learns(both) == Some(t)
    requires one.entity == [c] && Learns(one) == Some(b)
    requires seeds == map[a := k, c := l]
    ensures t !in Close(seeds, [one, both])
  {
    var linked := seeds[b := l];
    ResolveSingle(seeds, c);
    assert Step(seeds, one) == linked;
    ResolveAmbiguous(linked, a, b);
    PassTwo(seeds, one, both);
    PassTwo(linked, one, both);
    Progress(seeds, [one, both]);
    assert Pass(linked, [one, both]) == linked;
    assert Close(linked, [one, both]) == linked;
  }

  lemma PassTwo(ids: Identifiers, p: FieldPatch, q: FieldPatch)
    ensures Pass(ids, [p, q]) == Step(Step(ids, p), q)
  {
    assert [p, q][1..] == [q] && [q][1..] == [];
    assert Pass(Step(ids, p), [q]) == Pass(Step(Step(ids, p), q), []);
  }

  // ---- The matcher object -----------------------------------------------------------

  type Aliases = map<(SourceKey, string), string>

  function FirstAlias(aliases: Aliases, ref: Reference, source: SourceKey): Option<string> {
    if ref == [] then None
    else if (source, ref[0].value) in aliases then Some(aliases[(source, ref[0].value)])
    else FirstAlias(aliases, ref[1..], source)
  }

  /** Identifiers decide; an alias of the source is asked only when they do not. */
  function ResolveIn(ids: Identifiers, aliases: Aliases, ref: Reference, source: Option<SourceKey>): Option<string> {
    var direct := ResolveReference(ids, ref);
    if direct.Some? || source.None? then direct else FirstAlias(aliases, ref, source.value)
  }

  /** Entry `n` of the reference is the first that has an alias. */
  ghost predicate AliasedFirst(aliases: Aliases, ref: Reference, source: SourceKey, n: int) {
    && 0 <= n < |ref| && (source, ref[n].value) in aliases
    && forall m :: 0 <= m < n ==> (source, ref[m].value) !in aliases
  }

  lemma {:induction false} FirstAliasMeaning(aliases: Aliases, ref: Reference, source: SourceKey)
    ensures FirstAlias(aliases, ref, source) == None
       <==> forall n :: 0 <= n < |ref| ==> (source, ref[n].value) !in aliases
    ensures forall n :: AliasedFirst(aliases, ref, source, n) ==>
              FirstAlias(aliases, ref, source) == Some(aliases[(source, ref[n].value)])
  {
    if ref != [] {
      var rest := ref[1..];
      FirstAliasMeaning(aliases, rest, source);
      forall n | 0 < n < |ref| ensures rest[n - 1] == ref[n] {}
      forall n | 0 < n && AliasedFirst(aliases, ref, source, n) ensures AliasedFirst(aliases, rest, source, n - 1) {}
    }
  }

  /** What a reference is resolved to: the one key its identifiers lead to; if they lead to none
      or to several, the first alias the source has for one of its values. */
  ghost predicate ResolvesTo(ids: Identifiers, aliases: Aliases, ref: Reference, source: Option<SourceKey>,
                             key: Option<string>) {
    var found := set i | i in ref && i in ids :: ids[i];
    && (|found| == 1 ==> key.Some? && found == {key.value})
    && (|found| != 1 && source.None? ==> key == None)
    && (|found| != 1 && source.Some? ==>
          && (key == None <==> forall n :: 0 <= n < |ref| ==> (source.value, ref[n].value) !in aliases)
          && (forall n :: AliasedFirst(aliases, ref, source.value, n) ==>
                key == Some(aliases[(source.value, ref[n].value)])))
  }

  lemma OnlyElement<T>(s: set<T>)
    requires |s| == 1
    ensures exists x :: s == {x}
  {
    var x :| x in s;
    assert |s - {x}| == 0;
    assert s == {x};
  }

  lemma ResolveInMeaning(ids: Identifiers, aliases: Aliases, ref: Reference, source: Option<SourceKey>)
    ensures ResolvesTo(ids, aliases, ref, source, ResolveIn(ids, aliases, ref, source))
  {
    var found := set i | i in ref && i in ids :: ids[i];
    var direct := ResolveReference(ids, ref);
    if |found| == 1 {
      OnlyElement(found);
      var k :| found == {k};
      ResolveReferenceMeaning(ids, ref, k);
    } else if direct.Some? {
      ResolveReferenceMeaning(ids, ref, direct.value);
    }
    if source.Some? { FirstAliasMeaning(aliases, ref, source.value); }
  }

  /** An identifier that the catalog states leads to the last entity that states it, whatever the
      patches say and whoever asks. */
  lemma StatedIsResolved(entities: seq<EditorialEntity>, patches: seq<FieldPatch>, aliases: Aliases, n: int,
                         i: Identifier, source: Option<SourceKey>)
    requires StatesLast(entities, n, i)
    ensures ResolveIn(Close(Seeds(map[], entities), patches), aliases, [i], source) == Some(entities[n].key)
  {
    SeedsMeaning(entities, i);
    CloseExtends(Seeds(map[], entities), patches);
    ResolveSingle(Close(Seeds(map[], entities), patches), i);
  }

  class Matcher {
    var identifiers: Identifiers
    const aliases: Aliases

    constructor (entities: seq<EditorialEntity>, aliases: Aliases, patches: seq<FieldPatch>)
      ensures this.aliases == aliases
      ensures identifiers == Close(Seeds(map[], entities), patches)
      ensures forall n, i :: StatesLast(entities, n, i) ==> i in identifiers && identifiers[i] == entities[n].key
    {
      this.aliases := aliases;
      var seeds := SeedIdentifiers(entities);
      var closed, _ := CloseIdentifiers(seeds, patches);
      identifiers := closed;
      CloseExtends(seeds, patches);
    }

    method Resolve(ref: Reference, source: Option<SourceKey>) returns (key: Option<string>)
      ensures key == ResolveIn(identifiers, aliases, ref, source)
      ensures ResolvesTo(identifiers, aliases, ref, source, key)
    {
      ResolveInMeaning(identifiers, aliases, ref, source);
      key := ResolveReference(identifiers, ref);
      if key.Some? || source.None? { return; }
      for n := 0 to |ref|
        invariant FirstAlias(aliases, ref[n..], source.value) == FirstAlias(aliases, ref, source.value)
      {
        assert ref[n..][1..] == ref[n + 1..];
        if (source.value, ref[n].value) in aliases {
          return Some(aliases[(source.value, ref[n].value)]);
        }
      }
      return None;
    }
  }
}
