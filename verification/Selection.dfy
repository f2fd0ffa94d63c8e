/** The selection refresh: UN M49 records laid over the editorial entities without undoing
    what an editor has decided. */
module Selection {
  import opened Types
  import opened Sorting
  import opened Sets
  import opened Numerals

  datatype EntityType = Country | Territory | Area | Subdivision | Region | Subregion

  /** `other` is every field the refresh only carries along. */
  datatype Entity = Entity(
    key: string, kind: EntityType, status: string, config: Json, recognitionStatus: string,
    recognitionAsOf: Option<string>, identifiers: map<string, string>, other: Json)

  datatype Record = Record(isoAlpha2: string, countryOrArea: string, region: Json)

  datatype Policy = Policy(kind: EntityType, recognitionStatus: string)

  /** What the refresh takes from tables and libraries: `policyFor`, `slug`, the regions and
      subregions the records name, and `localeCompare`. */
  datatype Rules = Rules(
    classify: string -> Option<Policy>, slug: string -> string,
    regions: seq<Record> -> seq<Entity>, collate: (string, string) -> bool)

  const ISO: string := "isoAlpha2"
  const CUSTOM: string := "customCode"
  const TAIWAN: string := "TW"
  const TAIWAN_KEY: string := "country.taiwan"
  const REVIEWED: string := "2026-07-28"
  const PARTIAL: string := "partially_recognized"
  const ACTIVE: string := "active"

  function ListedConfig(): Json {
    Obj(map["includeInCountryCatalog" := Bool(true)])
  }

  // ---- Fresh keys ---------------------------------------------------------------------------

  function TypeName(kind: EntityType): string {
    match kind
    case Country => "country"
    case Territory => "territory"
    case Area => "area"
    case Subdivision => "subdivision"
    case Region => "region"
    case Subregion => "subregion"
  }

  function Base(rules: Rules, kind: EntityType, name: string): string {
    TypeName(kind) + "." + rules.slug(name)
  }

  /** The n-th key tried, counting from one. */
  function Candidate(base: string, n: nat): string {
    if n <= 1 then base else base + "-" + Decimal(n)
  }

  lemma CandidatesDiffer(base: string, m: nat, n: nat)
    requires 1 <= m < n
    ensures Candidate(base, m) != Candidate(base, n)
  {
    if Candidate(base, m) == Candidate(base, n) {
      var head := base + "-";
      assert |Candidate(base, n)| > |base|;
      assert Candidate(base, m)[|head|..] == Decimal(m);
      assert Candidate(base, n)[|head|..] == Decimal(n);
      DecimalFaithful(m, n);
      assert false;
    }
  }

  ghost function Tried(base: string, n: nat): set<string> {
    set m: nat | 1 <= m < n :: Candidate(base, m)
  }

  lemma {:induction false} TriedCount(base: string, n: nat)
    ensures |Tried(base, n)| == if n == 0 then 0 else n - 1
  {
    if n > 1 {
      TriedCount(base, n - 1);
      forall m: nat | 1 <= m < n - 1 ensures Candidate(base, m) != Candidate(base, n - 1) {
        CandidatesDiffer(base, m, n - 1);
      }
      assert Tried(base, n) == Tried(base, n - 1) + {Candidate(base, n - 1)};
    } else {
      assert Tried(base, n) == {};
    }
  }

  lemma TriedFits(base: string, n: nat, used: set<string>)
    requires n >= 1 && Tried(base, n) <= used
    ensures n <= |used| + 1
  {
    TriedCount(base, n);
    SubsetSize(Tried(base, n), used);
  }

  lemma TriedOneMore(base: string, n: nat, used: set<string>)
    requires n >= 1 && Tried(base, n) <= used && Candidate(base, n) in used
    ensures Tried(base, n + 1) <= used
  {
    forall key | key in Tried(base, n + 1) ensures key in used {
      var m: nat :| 1 <= m < n + 1 && Candidate(base, m) == key;
      if m < n { assert Candidate(base, m) in Tried(base, n); }
    }
  }

  /** The first candidate from number `n` on that is not used. */
  function FirstFree(base: string, n: nat, used: set<string>): (key: string)
    requires n >= 1 && Tried(base, n) <= used
    ensures key !in used
    decreases |used| + 1 - n
  {
    TriedFits(base, n, used);
    if Candidate(base, n) !in used then Candidate(base, n)
    else
      TriedOneMore(base, n, used);
      TriedFits(base, n + 1, used);
      FirstFree(base, n + 1, used)
  }

  function FreshKey(base: string, used: set<string>): (key: string)
    ensures key !in used
  {
    assert Tried(base, 1) == {};
    FirstFree(base, 1, used)
  }

  lemma {:induction false} FirstFreeMeaning(base: string, n: nat, used: set<string>) returns (m: nat)
    requires n >= 1 && Tried(base, n) <= used
    ensures m >= n && FirstFree(base, n, used) == Candidate(base, m) && Tried(base, m) <= used
    decreases |used| + 1 - n
  {
    TriedFits(base, n, used);
    if Candidate(base, n) !in used {
      m := n;
    } else {
      TriedOneMore(base, n, used);
      TriedFits(base, n + 1, used);
      m := FirstFreeMeaning(base, n + 1, used);
    }
  }

  /** The fresh key is a candidate all of whose predecessors are used. */
  lemma FreshKeyMeaning(base: string, used: set<string>) returns (m: nat)
    ensures m >= 1 && FreshKey(base, used) == Candidate(base, m)
    ensures forall k: nat :: 1 <= k < m ==> Candidate(base, k) in used
  {
    assert Tried(base, 1) == {};
    m := FirstFreeMeaning(base, 1, used);
    forall k: nat | 1 <= k < m ensures Candidate(base, k) in used {
      assert Candidate(base, k) in Tried(base, m);
    }
  }

  lemma FreshKeyIs(base: string, used: set<string>, n: nat)
    requires n >= 1 && Candidate(base, n) !in used
    requires forall k: nat :: 1 <= k < n ==> Candidate(base, k) in used
    ensures FreshKey(base, used) == Candidate(base, n)
  {
    var m := FreshKeyMeaning(base, used);
    assert m == n;
  }

  /** The key under number `n`; the first has none. */
  ghost function Numbered(base: string, n: nat): string {
    if n == 1 then base else base + "-" + Decimal(n)
  }

  /** The loop over suffixes. It ends on any set of used keys, with the first number that is free. */
  method EntityKey(rules: Rules, kind: EntityType, name: string, used: set<string>)
    returns (key: string, usedAfter: set<string>)
    ensures key == FreshKey(Base(rules, kind, name), used)
    ensures usedAfter == used + {key}
    ensures key !in used
    ensures exists n: nat ::
              && n >= 1 && key == Numbered(Base(rules, kind, name), n)
              && forall m: nat :: 1 <= m < n ==> Numbered(Base(rules, kind, name), m) in used
  {
    var number := FreshKeyMeaning(Base(rules, kind, name), used);
    assert forall m: nat :: m >= 1 ==> Numbered(Base(rules, kind, name), m) == Candidate(Base(rules, kind, name), m);
    var base := Base(rules, kind, name);
    key := base;
    var suffix := 2;
    while key in used
      invariant suffix >= 2 && key == Candidate(base, suffix - 1) && Tried(base, suffix - 1) <= used
      invariant FirstFree(base, suffix - 1, used) == FreshKey(base, used)
      decreases |used| + 2 - suffix
    {
      TriedOneMore(base, suffix - 1, used);
      TriedFits(base, suffix, used);
      key := base + "-" + Decimal(suffix);
      suffix := suffix + 1;
    }
    usedAfter := used + {key};
  }

  // ---- The refresh ----------------------------------------------------------------------------

  type ByIso = map<string, Entity>

  /** Of two entities with one code, the last. */
  function ExistingByIso(entities: seq<Entity>): ByIso {
    if entities == [] then map[]
    else
      var front, last := ExistingByIso(entities[..|entities| - 1]), entities[|entities| - 1];
      if ISO in last.identifiers then front[last.identifiers[ISO] := last] else front
  }

  function Known(existing: ByIso, iso: string): Option<Entity> {
    if iso in existing then Some(existing[iso]) else None
  }

  /** The entity of a record: what the source says, over what is editorial. */
  function Rebuild(existing: Option<Entity>, key: string, iso: string, policy: Policy): Entity {
    Entity(
      key, policy.kind,
      if existing.Some? then existing.value.status else ACTIVE,
      if existing.Some? then existing.value.config else ListedConfig(),
      policy.recognitionStatus,
      if policy.recognitionStatus == PARTIAL then Some(REVIEWED)
      else if existing.Some? then existing.value.recognitionAsOf else None,
      map[ISO := iso],
      if existing.Some? then existing.value.other else Obj(map[]))
  }

  function Taiwan(existing: Option<Entity>): Entity {
    Entity(
      if existing.Some? then existing.value.key else TAIWAN_KEY, Country,
      if existing.Some? then existing.value.status else ACTIVE,
      if existing.Some? then existing.value.config else ListedConfig(),
      PARTIAL, Some(REVIEWED), map[ISO := TAIWAN, "isoAlpha3" := "TWN"],
      if existing.Some? then existing.value.other else Obj(map[]))
  }

  function KeyFor(rules: Rules, existing: ByIso, r: Record, kind: EntityType, used: set<string>): string {
    if r.isoAlpha2 in existing then existing[r.isoAlpha2].key else FreshKey(Base(rules, kind, r.countryOrArea), used)
  }

  /** The selected entities, or the code nobody has classified. */
  function Select(rules: Rules, existing: ByIso, records: seq<Record>, used: set<string>): Result<seq<Entity>, string>
    decreases |records|
  {
    if records == [] then Ok([])
    else
      var r, policy := records[0], rules.classify(records[0].isoAlpha2);
      if policy.None? then Err(r.isoAlpha2)
      else
        var key := KeyFor(rules, existing, r, policy.value.kind, used);
        var rest := Select(rules, existing, records[1..], used + {key});
        if rest.Err? then rest
        else Ok([Rebuild(Known(existing, r.isoAlpha2), key, r.isoAlpha2, policy.value)] + rest.value)
  }

  predicate Preserved(e: Entity) {
    e.kind in {Region, Subregion, Subdivision} || CUSTOM in e.identifiers
  }

  function Extra(taiwanKey: string): Entity -> bool {
    (e: Entity) => Preserved(e) && e.kind !in {Region, Subregion} && e.key != taiwanKey
  }

  function KeysOf(entities: seq<Entity>): set<string> {
    set e | e in entities :: e.key
  }

  function KeyOf(e: Entity): string {
    e.key
  }

  function Combined(rules: Rules, selected: seq<Entity>, taiwan: Entity, entities: seq<Entity>, records: seq<Record>)
    : seq<Entity>
  {
    selected + [taiwan] + Filter(entities, Extra(taiwan.key)) + rules.regions(records)
  }

  function Refreshed(rules: Rules, entities: seq<Entity>, records: seq<Record>): Result<seq<Entity>, string> {
    var existing := ExistingByIso(entities);
    var selected := Select(rules, existing, records, KeysOf(Filter(entities, Preserved)));
    if selected.Err? then selected
    else
      var all := Combined(rules, selected.value, Taiwan(Known(existing, TAIWAN)), entities, records);
      Ok(Sort(all, By(KeyOf, rules.collate)))
  }

  /** What the whole selection comes to when `selected` is done and `rest` is to follow. */
  function Continue(selected: seq<Entity>, rest: Result<seq<Entity>, string>): Result<seq<Entity>, string> {
    if rest.Err? then rest else Ok(selected + rest.value)
  }

  lemma SelectStep(rules: Rules, existing: ByIso, records: seq<Record>, used: set<string>, selected: seq<Entity>)
    requires records != [] && rules.classify(records[0].isoAlpha2).Some?
    ensures var r, policy := records[0], rules.classify(records[0].isoAlpha2).value;
      var key := KeyFor(rules, existing, r, policy.kind, used);
      Continue(selected, Select(rules, existing, records, used))
      == Continue(selected + [Rebuild(Known(existing, r.isoAlpha2), key, r.isoAlpha2, policy)],
                  Select(rules, existing, records[1..], used + {key}))
  {
    var r, policy := records[0], rules.classify(records[0].isoAlpha2).value;
    var key := KeyFor(rules, existing, r, policy.kind, used);
    var e := Rebuild(Known(existing, r.isoAlpha2), key, r.isoAlpha2, policy);
    var rest := Select(rules, existing, records[1..], used + {key});
    if rest.Ok? { assert selected + ([e] + rest.value) == (selected + [e]) + rest.value; }
  }

  method SelectEntities(rules: Rules, existing: ByIso, records: seq<Record>, preserved: set<string>)
    returns (r: Result<seq<Entity>, string>)
    ensures r == Select(rules, existing, records, preserved)
  {
    var used, selected: seq<Entity> := preserved, [];
    ghost var goal := Select(rules, existing, records, preserved);
    assert records[0..] == records;
    assert goal.Ok? ==> selected + goal.value == goal.value;
    for n := 0 to |records|
      invariant Continue(selected, Select(rules, existing, records[n..], used)) == goal
    {
      var record := records[n];
      var policy := rules.classify(record.isoAlpha2);
      if policy.None? {
        return Err(record.isoAlpha2);
      }
      SelectStep(rules, existing, records[n..], used, selected);
      assert records[n..][1..] == records[n + 1..];
      var known := Known(existing, record.isoAlpha2);
      var key;
      if known.Some? {
        key := known.value.key;
      } else {
        key, used := EntityKey(rules, policy.value.kind, record.countryOrArea, used);
      }
      used := used + {key};
      selected := selected + [Rebuild(known, key, record.isoAlpha2, policy.value)];
    }
    assert records[|records|..] == [] && selected + [] == selected;
    return Ok(selected);
  }

  /** The entity part of `syncSelection`: `entities` is replaced only when every record has
      been classified. */
  class Editorial {
    var entities: seq<Entity>

    constructor (entities: seq<Entity>)
      ensures this.entities == entities
    {
      this.entities := entities;
    }

    method SyncSelection(rules: Rules, records: seq<Record>) returns (unknown: Option<string>)
      modifies this
      ensures match Refreshed(rules, old(entities), records)
        case Ok(after) => unknown == None && entities == after
        case Err(code) => unknown == Some(code) && entities == old(entities)
      ensures unknown == None <==> forall i :: 0 <= i < |records| ==> rules.classify(records[i].isoAlpha2).Some?
      ensures unknown == None ==> IsRefreshed(rules, old(entities), records, entities)
      ensures forall i :: UnknownFirst(rules, records, i) ==> unknown == Some(records[i].isoAlpha2)
    {
      if Refreshed(rules, entities, records).Ok? { RefreshedMeaning(rules, entities, records); }
      SelectFailsIff(rules, ExistingByIso(entities), records, KeysOf(Filter(entities, Preserved)));
      var existing := ExistingByIso(entities);
      var selected := SelectEntities(rules, existing, records, KeysOf(Filter(entities, Preserved)));
      if selected.Err? {
        return Some(selected.error);
      }
      var taiwan := Taiwan(Known(existing, TAIWAN));
      entities := Sort(Combined(rules, selected.value, taiwan, entities, records), By(KeyOf, rules.collate));
      return None;
    }
  }

  // ---- What a refresh is --------------------------------------------------------------------------

  ghost predicate HasIso(e: Entity, iso: string) {
    "isoAlpha2" in e.identifiers && e.identifiers["isoAlpha2"] == iso
  }

  ghost predicate Coded(entities: seq<Entity>, iso: string) {
    exists n :: 0 <= n < |entities| && HasIso(entities[n], iso)
  }

  /** Entity `n` is the last with this code. */
  ghost predicate CodedLast(entities: seq<Entity>, n: int, iso: string) {
    0 <= n < |entities| && HasIso(entities[n], iso) && forall m :: n < m < |entities| ==> !HasIso(entities[m], iso)
  }

  /** What an editor has decided about the entity with this code, and what it starts with. */
  ghost predicate KeepsEditorial(entities: seq<Entity>, iso: string, e: Entity) {
    && (forall n :: CodedLast(entities, n, iso) ==>
          && e.key == entities[n].key && e.status == entities[n].status
          && e.config == entities[n].config && e.other == entities[n].other)
    && (!Coded(entities, iso) ==>
          && e.status == "active" && e.config == Obj(map["includeInCountryCatalog" := Bool(true)])
          && e.other == Obj(map[]))
  }

  /** The date a recognition was reviewed: today's for a partial one, else the one that was. */
  ghost predicate DatesRecognition(entities: seq<Entity>, iso: string, e: Entity) {
    && (e.recognitionStatus == "partially_recognized" ==> e.recognitionAsOf == Some("2026-07-28"))
    && (e.recognitionStatus != "partially_recognized" ==>
          && (forall n :: CodedLast(entities, n, iso) ==> e.recognitionAsOf == entities[n].recognitionAsOf)
          && (!Coded(entities, iso) ==> e.recognitionAsOf == None))
  }

  /** The entity of a record: kind and recognition as classified, the rest as it was. */
  ghost predicate Made(rules: Rules, entities: seq<Entity>, r: Record, e: Entity) {
    && rules.classify(r.isoAlpha2) == Some(Policy(e.kind, e.recognitionStatus))
    && e.identifiers == map["isoAlpha2" := r.isoAlpha2]
    && KeepsEditorial(entities, r.isoAlpha2, e) && DatesRecognition(entities, r.isoAlpha2, e)
  }

  ghost predicate IsTaiwan(entities: seq<Entity>, e: Entity) {
    && e.kind == Country && e.recognitionStatus == "partially_recognized"
    && e.identifiers == map["isoAlpha2" := "TW", "isoAlpha3" := "TWN"]
    && KeepsEditorial(entities, "TW", e) && DatesRecognition(entities, "TW", e)
    && (!Coded(entities, "TW") ==> e.key == "country.taiwan")
  }

  /** The refresh has no opinion about the entity: it is a subdivision, or has a code of its own
      and is no region. */
  ghost predicate Carries(e: Entity, taiwanKey: string) {
    && (e.kind == Subdivision || ("customCode" in e.identifiers && e.kind != Region && e.kind != Subregion))
    && e.key != taiwanKey
  }

  /** The key is that of a region, a subdivision or an entity with a code of its own, or of one of
      the first `i` selected. */
  ghost predicate Taken(entities: seq<Entity>, selected: seq<Entity>, i: int, key: string) {
    || (exists e :: e in entities && e.key == key
          && (e.kind in {Region, Subregion, Subdivision} || "customCode" in e.identifiers))
    || exists h :: 0 <= h < i && h < |selected| && selected[h].key == key
  }

  ghost predicate TypeOf(kind: EntityType, name: string) {
    match kind
    case Country => name == "country"
    case Territory => name == "territory"
    case Area => name == "area"
    case Subdivision => name == "subdivision"
    case Region => name == "region"
    case Subregion => name == "subregion"
  }

  /** Number `n` is the first under which the key is free. */
  ghost predicate FirstFreeAt(entities: seq<Entity>, selected: seq<Entity>, i: int, base: string, n: nat) {
    && n >= 1 && !Taken(entities, selected, i, Numbered(base, n))
    && forall m :: 1 <= m < n ==> Taken(entities, selected, i, Numbered(base, m))
  }

  /** The key of a record nobody has an entity for: its type and name, numbered if that is taken. */
  ghost predicate TakesFreeKey(rules: Rules, entities: seq<Entity>, selected: seq<Entity>, i: int, r: Record)
    requires 0 <= i < |selected|
  {
    exists type_, n :: TypeOf(selected[i].kind, type_)
      && FirstFreeAt(entities, selected, i, type_ + "." + rules.slug(r.countryOrArea), n)
      && selected[i].key == Numbered(type_ + "." + rules.slug(r.countryOrArea), n)
  }

  /** `selected` are the entities of the records. */
  ghost predicate Selects(rules: Rules, entities: seq<Entity>, records: seq<Record>, selected: seq<Entity>) {
    && |selected| == |records|
    && forall i :: 0 <= i < |records| ==>
         && Made(rules, entities, records[i], selected[i])
         && (!Coded(entities, records[i].isoAlpha2) ==> TakesFreeKey(rules, entities, selected, i, records[i]))
  }

  /** `after` holds the entities of the records, Taiwan, what is carried over and the regions, all
      of them once and in the order of their keys. */
  ghost predicate IsRefreshed(rules: Rules, entities: seq<Entity>, records: seq<Record>, after: seq<Entity>) {
    && (TotalPreorder(rules.collate) ==>
          forall i, j :: 0 <= i < j < |after| ==> rules.collate(after[i].key, after[j].key))
    && exists selected, taiwan :: Selects(rules, entities, records, selected) && IsTaiwan(entities, taiwan)
         && multiset(after) == multiset(selected) + multiset{taiwan}
              + multiset(Filter(entities, (e: Entity) => Carries(e, taiwan.key))) + multiset(rules.regions(records))
  }

  lemma {:induction false} ExistingIsLast(entities: seq<Entity>, iso: string)
    ensures iso in ExistingByIso(entities) <==> Coded(entities, iso)
    ensures forall n :: CodedLast(entities, n, iso) ==>
              iso in ExistingByIso(entities) && ExistingByIso(entities)[iso] == entities[n]
  {
    if entities != [] {
      var last := |entities| - 1;
      var front := entities[..last];
      ExistingIsLast(front, iso);
      assert forall n :: 0 <= n < last ==> front[n] == entities[n];
      if HasIso(entities[last], iso) {
        assert Coded(entities, iso);
      } else {
        if n :| 0 <= n < |front| && HasIso(front[n], iso) { assert HasIso(entities[n], iso); }
        forall n | CodedLast(entities, n, iso) ensures CodedLast(front, n, iso) {}
      }
    }
  }

  lemma RebuiltIsMade(rules: Rules, entities: seq<Entity>, r: Record, key: string)
    requires rules.classify(r.isoAlpha2).Some?
    requires r.isoAlpha2 in ExistingByIso(entities) ==> key == ExistingByIso(entities)[r.isoAlpha2].key
    ensures Made(rules, entities, r, Rebuild(Known(ExistingByIso(entities), r.isoAlpha2), key, r.isoAlpha2,
                                             rules.classify(r.isoAlpha2).value))
  {
    ExistingIsLast(entities, r.isoAlpha2);
  }

  lemma TaiwanIsTaiwan(entities: seq<Entity>)
    ensures IsTaiwan(entities, Taiwan(Known(ExistingByIso(entities), TAIWAN)))
  {
    ExistingIsLast(entities, TAIWAN);
  }

  lemma CarriedAre(entities: seq<Entity>, taiwanKey: string)
    ensures Filter(entities, (e: Entity) => Carries(e, taiwanKey)) == Filter(entities, Extra(taiwanKey))
  {
    FilterAgrees(entities, (e: Entity) => Carries(e, taiwanKey), Extra(taiwanKey));
  }

  lemma PreservedTake(entities: seq<Entity>, key: string)
    ensures key in KeysOf(Filter(entities, Preserved))
       <==> exists e :: e in entities && e.key == key
              && (e.kind in {Region, Subregion, Subdivision} || "customCode" in e.identifiers)
  {
    if e :| e in Filter(entities, Preserved) && e.key == key { assert e in entities && Preserved(e); }
    if e :| e in entities && e.key == key && Preserved(e) { assert e in Filter(entities, Preserved); }
  }

  lemma EarlierTake(selected: seq<Entity>, i: nat, key: string)
    requires i <= |selected|
    ensures key in KeysOf(selected[..i]) <==> exists h :: 0 <= h < i && selected[h].key == key
  {
    if e :| e in selected[..i] && e.key == key {
      var h :| 0 <= h < i && selected[..i][h] == e;
      assert selected[h].key == key;
    }
    if h :| 0 <= h < i && selected[h].key == key { assert selected[..i][h] in selected[..i]; }
  }

  lemma {:induction false} TakenIffUsed(rules: Rules, entities: seq<Entity>, records: seq<Record>, i: nat, key: string)
    requires Refreshed(rules, entities, records).Ok? && i <= |records|
    ensures Taken(entities, Selected(rules, entities, records), i, key)
       <==> key in UsedBefore(rules, entities, records, i)
  {
    PreservedTake(entities, key);
    EarlierTake(Selected(rules, entities, records), i, key);
  }

  lemma {:induction false} NewTakesFreeKey(rules: Rules, entities: seq<Entity>, records: seq<Record>, i: nat)
    requires Refreshed(rules, entities, records).Ok? && i < |records| && New(entities, records[i])
    requires Made(rules, entities, records[i], Selected(rules, entities, records)[i])
    ensures TakesFreeKey(rules, entities, Selected(rules, entities, records), i, records[i])
  {
    var selected := Selected(rules, entities, records);
    SelectedKey(rules, entities, records, i);
    var type_ := TypeName(selected[i].kind);
    assert TypeOf(selected[i].kind, type_);
    var n := FreshIsFirstFree(rules, entities, records, i, type_ + "." + rules.slug(records[i].countryOrArea));
  }

  lemma {:induction false} FreshIsFirstFree(rules: Rules, entities: seq<Entity>, records: seq<Record>, i: nat,
                                            base: string)
    returns (n: nat)
    requires Refreshed(rules, entities, records).Ok? && i <= |records|
    ensures FirstFreeAt(entities, Selected(rules, entities, records), i, base, n)
    ensures FreshKey(base, UsedBefore(rules, entities, records, i)) == Numbered(base, n)
  {
    var selected, used := Selected(rules, entities, records), UsedBefore(rules, entities, records, i);
    n := FreshKeyMeaning(base, used);
    forall m: nat | m >= 1 ensures Taken(entities, selected, i, Numbered(base, m)) <==> Candidate(base, m) in used {
      NumberTaken(rules, entities, records, i, base, m);
    }
    assert Numbered(base, n) == Candidate(base, n);
  }

  lemma {:induction false} NumberTaken(rules: Rules, entities: seq<Entity>, records: seq<Record>, i: nat,
                                       base: string, m: nat)
    requires Refreshed(rules, entities, records).Ok? && i <= |records| && m >= 1
    ensures Taken(entities, Selected(rules, entities, records), i, Numbered(base, m))
       <==> Candidate(base, m) in UsedBefore(rules, entities, records, i)
  {
    TakenIffUsed(rules, entities, records, i, Numbered(base, m));
    assert Numbered(base, m) == Candidate(base, m);
  }

  lemma SelectedIsSelects(rules: Rules, entities: seq<Entity>, records: seq<Record>)
    requires Refreshed(rules, entities, records).Ok?
    ensures Selects(rules, entities, records, Selected(rules, entities, records))
  {
    var selected := Selected(rules, entities, records);
    forall i | 0 <= i < |records|
      ensures Made(rules, entities, records[i], selected[i])
      ensures !Coded(entities, records[i].isoAlpha2) ==> TakesFreeKey(rules, entities, selected, i, records[i])
    {
      var key := SelectAt(rules, ExistingByIso(entities), records, KeysOf(Filter(entities, Preserved)), i);
      RebuiltIsMade(rules, entities, records[i], key);
      ExistingIsLast(entities, records[i].isoAlpha2);
      if New(entities, records[i]) { NewTakesFreeKey(rules, entities, records, i); }
    }
  }

  /** What the refreshed catalog is, in terms of what goes in. */
  lemma RefreshedMeaning(rules: Rules, entities: seq<Entity>, records: seq<Record>)
    requires Refreshed(rules, entities, records).Ok?
    ensures IsRefreshed(rules, entities, records, Refreshed(rules, entities, records).value)
  {
    var selected, taiwan := Selected(rules, entities, records), Taiwan(Known(ExistingByIso(entities), TAIWAN));
    var after, leq := Refreshed(rules, entities, records).value, By(KeyOf, rules.collate);
    var all := Combined(rules, selected, taiwan, entities, records);
    SelectedIsSelects(rules, entities, records);
    TaiwanIsTaiwan(entities);
    CarriedAre(entities, taiwan.key);
    SortMultiset(all, leq);
    assert multiset(all) == multiset(selected) + multiset([taiwan]) + multiset(Filter(entities, Extra(taiwan.key)))
                            + multiset(rules.regions(records));
    if TotalPreorder(rules.collate) {
      ByOrder(KeyOf, rules.collate);
      SortSorted(all, leq);
      forall i, j | 0 <= i < j < |after| ensures rules.collate(after[i].key, after[j].key) {
        assert leq(after[i], after[j]);
      }
    }
  }

  /** Record `i` is the first whose code nobody has classified. */
  ghost predicate UnknownFirst(rules: Rules, records: seq<Record>, i: int) {
    && 0 <= i < |records| && rules.classify(records[i].isoAlpha2).None?
    && forall j :: 0 <= j < i ==> rules.classify(records[j].isoAlpha2).Some?
  }

  lemma {:induction false} SelectFailsIff(rules: Rules, existing: ByIso, records: seq<Record>, used: set<string>)
    ensures Select(rules, existing, records, used).Ok?
       <==> forall i :: 0 <= i < |records| ==> rules.classify(records[i].isoAlpha2).Some?
    ensures forall i :: UnknownFirst(rules, records, i) ==>
              Select(rules, existing, records, used) == Err(records[i].isoAlpha2)
    decreases |records|
  {
    if records != [] && rules.classify(records[0].isoAlpha2).Some? {
      var key := KeyFor(rules, existing, records[0], rules.classify(records[0].isoAlpha2).value.kind, used);
      var rest := records[1..];
      SelectFailsIff(rules, existing, rest, used + {key});
      assert forall i :: 0 < i < |records| ==> rest[i - 1] == records[i];
      forall i | UnknownFirst(rules, records, i) ensures i > 0 && UnknownFirst(rules, rest, i - 1) {
        assert i != 0;
        forall j | 0 <= j < i - 1 ensures rules.classify(rest[j].isoAlpha2).Some? { assert rest[j] == records[j + 1]; }
      }
      if forall i :: 0 <= i < |rest| ==> rules.classify(rest[i].isoAlpha2).Some? {
        forall i | 0 <= i < |records| ensures rules.classify(records[i].isoAlpha2).Some? {
          if i > 0 { assert rest[i - 1] == records[i]; }
        }
      } else {
        var i :| 0 <= i < |rest| && rules.classify(rest[i].isoAlpha2).None?;
        assert records[i + 1] == rest[i];
      }
    }
  }

  // ---- What a refresh keeps ----------------------------------------------------------------------

  lemma SelectUnfolded(rules: Rules, existing: ByIso, records: seq<Record>, used: set<string>) returns (key: string)
    requires Select(rules, existing, records, used).Ok? && records != []
    ensures rules.classify(records[0].isoAlpha2).Some?
    ensures key == KeyFor(rules, existing, records[0], rules.classify(records[0].isoAlpha2).value.kind, used)
    ensures Select(rules, existing, records[1..], used + {key}).Ok?
    ensures Select(rules, existing, records, used).value
         == [Rebuild(Known(existing, records[0].isoAlpha2), key, records[0].isoAlpha2,
                     rules.classify(records[0].isoAlpha2).value)]
            + Select(rules, existing, records[1..], used + {key}).value
  {
    key := KeyFor(rules, existing, records[0], rules.classify(records[0].isoAlpha2).value.kind, used);
  }

  lemma {:induction false} SelectAt(rules: Rules, existing: ByIso, records: seq<Record>, used: set<string>, i: nat)
    returns (key: string)
    requires Select(rules, existing, records, used).Ok? && i < |records|
    ensures |Select(rules, existing, records, used).value| == |records|
    ensures rules.classify(records[i].isoAlpha2).Some?
    ensures Select(rules, existing, records, used).value[i]
         == Rebuild(Known(existing, records[i].isoAlpha2), key, records[i].isoAlpha2,
                    rules.classify(records[i].isoAlpha2).value)
    ensures records[i].isoAlpha2 in existing ==> key == existing[records[i].isoAlpha2].key
    decreases |records|
  {
    key := SelectUnfolded(rules, existing, records, used);
    SelectLength(rules, existing, records, used);
    if i > 0 {
      key := SelectAt(rules, existing, records[1..], used + {key}, i - 1);
    }
  }

  lemma {:induction false} SelectLength(rules: Rules, existing: ByIso, records: seq<Record>, used: set<string>)
    requires Select(rules, existing, records, used).Ok?
    ensures |Select(rules, existing, records, used).value| == |records|
    decreases |records|
  {
    if records != [] {
      var key := SelectUnfolded(rules, existing, records, used);
      SelectLength(rules, existing, records[1..], used + {key});
    }
  }

  /** An entity about which the refresh has no opinion stays in the catalog as it is, so one
      that is gone is a country, a territory, an area or a region, or had Taiwan's key. */
  lemma CarriedOver(rules: Rules, entities: seq<Entity>, records: seq<Record>, e: Entity)
    requires Refreshed(rules, entities, records).Ok? && e in entities
    requires e.kind == Subdivision || ("customCode" in e.identifiers && e.kind != Region && e.kind != Subregion)
    requires e.key != "country.taiwan" && forall t :: t in entities && HasIso(t, "TW") ==> e.key != t.key
    ensures e in Refreshed(rules, entities, records).value
  {
    var taiwan := Taiwan(Known(ExistingByIso(entities), TAIWAN));
    var all := Combined(rules, Selected(rules, entities, records), taiwan, entities, records);
    TaiwanIsTaiwan(entities);
    if Coded(entities, "TW") { var n := SomeCodedLast(entities, "TW"); }
    assert e in Filter(entities, Extra(taiwan.key));
    assert e in all;
    SortMembers(all, By(KeyOf, rules.collate));
  }

  lemma {:induction false} SomeCodedLast(entities: seq<Entity>, iso: string) returns (n: int)
    requires Coded(entities, iso)
    ensures CodedLast(entities, n, iso)
  {
    var last := |entities| - 1;
    if HasIso(entities[last], iso) {
      n := last;
    } else {
      n := SomeCodedLast(entities[..last], iso);
    }
  }

  /** A known entity that is selected again keeps its key, its status and its config, and
      every field the source has no opinion about; its kind and recognition are the source's. */
  lemma RefreshKeepsDecisions(rules: Rules, entities: seq<Entity>, records: seq<Record>, i: nat, n: int)
    requires Refreshed(rules, entities, records).Ok? && i < |records| && CodedLast(entities, n, records[i].isoAlpha2)
    ensures exists e :: e in Refreshed(rules, entities, records).value && Made(rules, entities, records[i], e)
                     && e.key == entities[n].key && e.status == entities[n].status && e.config == entities[n].config
                     && e.other == entities[n].other
  {
    var selected, after := Selected(rules, entities, records), Refreshed(rules, entities, records).value;
    SelectedIsSelects(rules, entities, records);
    var all := Combined(rules, selected, Taiwan(Known(ExistingByIso(entities), TAIWAN)), entities, records);
    assert selected[i] in all;
    SortMembers(all, By(KeyOf, rules.collate));
    assert Made(rules, entities, records[i], selected[i]);
  }

  // ---- Idempotence -----------------------------------------------------------------------------------


  ghost predicate IsoUnique(entities: seq<Entity>) {
    forall i, j, iso :: 0 <= i < j < |entities| && HasIso(entities[i], iso) ==> !HasIso(entities[j], iso)
  }

  ghost predicate RecordsUnique(records: seq<Record>) {
    forall i, j :: 0 <= i < j < |records| ==> records[i].isoAlpha2 != records[j].isoAlpha2
  }

  /** What `policyFor` and the region tables guarantee: a record becomes a country, a
      territory or an area, Taiwan is partially recognised, regions are regions and carry
      no code. */
  ghost predicate Sound(rules: Rules, records: seq<Record>) {
    && TotalPreorder(rules.collate)
    && (forall iso :: rules.classify(iso).Some? ==> rules.classify(iso).value.kind in {Country, Territory, Area})
    && rules.classify(TAIWAN) == Some(Policy(Country, PARTIAL))
    && (forall e :: e in rules.regions(records) ==> e.kind in {Region, Subregion} && e.identifiers == map[])
  }

  lemma {:induction false} ExistingMeaning(entities: seq<Entity>, iso: string)
    ensures iso in ExistingByIso(entities) <==> exists e :: e in entities && HasIso(e, iso)
    ensures iso in ExistingByIso(entities) ==>
              ExistingByIso(entities)[iso] in entities && HasIso(ExistingByIso(entities)[iso], iso)
  {
    if entities != [] {
      var front, last := entities[..|entities| - 1], entities[|entities| - 1];
      assert entities == front + [last];
      ExistingMeaning(front, iso);
      assert last in entities;
      if e :| e in entities && HasIso(e, iso) && e != last { assert e in front; }
    }
  }

  lemma OnlyOneHasIso(entities: seq<Entity>, iso: string, e: Entity)
    requires IsoUnique(entities) && e in entities && HasIso(e, iso)
    ensures Known(ExistingByIso(entities), iso) == Some(e)
  {
    ExistingMeaning(entities, iso);
    var f := ExistingByIso(entities)[iso];
    var i :| 0 <= i < |entities| && entities[i] == e;
    var j :| 0 <= j < |entities| && entities[j] == f;
    assert i == j;
  }

  function Selected(rules: Rules, entities: seq<Entity>, records: seq<Record>): (s: seq<Entity>)
    requires Refreshed(rules, entities, records).Ok?
    ensures |s| == |records|
  {
    SelectLength(rules, ExistingByIso(entities), records, KeysOf(Filter(entities, Preserved)));
    Select(rules, ExistingByIso(entities), records, KeysOf(Filter(entities, Preserved))).value
  }

  /** The keys in use when record `i` gets its own. */
  ghost function UsedBefore(rules: Rules, entities: seq<Entity>, records: seq<Record>, i: int): set<string>
    requires Refreshed(rules, entities, records).Ok? && 0 <= i <= |records|
  {
    KeysOf(Filter(entities, Preserved)) + KeysOf(Selected(rules, entities, records)[..i])
  }

  /** The key a record is given when `used` is in use and `before` has been selected. */
  ghost function KeyAfter(rules: Rules, existing: ByIso, r: Record, used: set<string>, before: seq<Entity>): string
    requires rules.classify(r.isoAlpha2).Some?
  {
    KeyFor(rules, existing, r, rules.classify(r.isoAlpha2).value.kind, used + KeysOf(before))
  }

  lemma {:induction false} SelectFresh(rules: Rules, existing: ByIso, records: seq<Record>, used: set<string>, i: nat)
    requires Select(rules, existing, records, used).Ok? && i < |records|
    ensures |Select(rules, existing, records, used).value| == |records|
    ensures rules.classify(records[i].isoAlpha2).Some?
    ensures var selected := Select(rules, existing, records, used).value;
      selected[i].key == KeyAfter(rules, existing, records[i], used, selected[..i])
    decreases |records|
  {
    var key := SelectUnfolded(rules, existing, records, used);
    SelectLength(rules, existing, records, used);
    if i == 0 {
      assert used + KeysOf([]) == used;
    } else {
      SelectFresh(rules, existing, records[1..], used + {key}, i - 1);
      KeyAfterFirst(rules, existing, records[i], used, Select(rules, existing, records, used).value, i);
    }
  }

  lemma {:induction false} KeyAfterFirst(rules: Rules, existing: ByIso, r: Record, used: set<string>,
                                         selected: seq<Entity>, i: nat)
    requires rules.classify(r.isoAlpha2).Some? && 0 < i <= |selected|
    ensures KeyAfter(rules, existing, r, used + {selected[0].key}, selected[1..][..i - 1])
         == KeyAfter(rules, existing, r, used, selected[..i])
  {
    assert selected == [selected[0]] + selected[1..];
    KeysWithFirst(used, selected[0], selected[1..], i - 1);
  }

  lemma KeysWithFirst(used: set<string>, first: Entity, rest: seq<Entity>, i: nat)
    requires i <= |rest|
    ensures used + {first.key} + KeysOf(rest[..i]) == used + KeysOf(([first] + rest)[..i + 1])
  {
    assert ([first] + rest)[..i + 1] == [first] + rest[..i];
  }

  ghost predicate New(entities: seq<Entity>, r: Record) {
    r.isoAlpha2 !in ExistingByIso(entities)
  }

  /** The key a new record is given when nobody has it. */
  function BaseOf(rules: Rules, r: Record): string
    requires rules.classify(r.isoAlpha2).Some?
  {
    Base(rules, rules.classify(r.isoAlpha2).value.kind, r.countryOrArea)
  }

  lemma SelectedKey(rules: Rules, entities: seq<Entity>, records: seq<Record>, i: nat)
    requires Refreshed(rules, entities, records).Ok? && i < |records|
    ensures rules.classify(records[i].isoAlpha2).Some?
    ensures Selected(rules, entities, records)[i].key
         == if New(entities, records[i])
            then FreshKey(BaseOf(rules, records[i]), UsedBefore(rules, entities, records, i))
            else ExistingByIso(entities)[records[i].isoAlpha2].key
  {
    SelectFresh(rules, ExistingByIso(entities), records, KeysOf(Filter(entities, Preserved)), i);
  }

  /** The record states `key`, or would be given it if nobody had it. */
  ghost predicate Wants(rules: Rules, entities: seq<Entity>, r: Record, key: string) {
    if New(entities, r) then rules.classify(r.isoAlpha2).Some? && BaseOf(rules, r) == key
    else ExistingByIso(entities)[r.isoAlpha2].key == key
  }

  /** A key without a number at its end is in use exactly when it is preserved or a record
      before wants it. */
  lemma {:induction false} PlainKeyUsedIff(rules: Rules, entities: seq<Entity>, records: seq<Record>, i: nat,
                                           key: string)
    requires Refreshed(rules, entities, records).Ok? && i <= |records| && key != [] && !('0' <= key[|key| - 1] <= '9')
    ensures key in UsedBefore(rules, entities, records, i)
       <==> key in KeysOf(Filter(entities, Preserved)) || WantedBefore(rules, entities, records, i, key)
  {
    if i == 0 {
      assert Selected(rules, entities, records)[..0] == [];
    } else {
      PlainKeyUsedIff(rules, entities, records, i - 1, key);
      WantedOneMore(rules, entities, records, i - 1, key);
      UsedGrows(rules, entities, records, i - 1);
      PlainKeyNextIff(rules, entities, records, i - 1, key);
    }
  }

  ghost predicate WantedBefore(rules: Rules, entities: seq<Entity>, records: seq<Record>, i: int, key: string)
    requires 0 <= i <= |records|
  {
    exists h :: 0 <= h < i && Wants(rules, entities, records[h], key)
  }

  lemma WantedOneMore(rules: Rules, entities: seq<Entity>, records: seq<Record>, i: nat, key: string)
    requires i < |records|
    ensures WantedBefore(rules, entities, records, i + 1, key)
       <==> WantedBefore(rules, entities, records, i, key) || Wants(rules, entities, records[i], key)
  {
  }

  lemma UsedGrows(rules: Rules, entities: seq<Entity>, records: seq<Record>, i: nat)
    requires Refreshed(rules, entities, records).Ok? && i < |records|
    ensures UsedBefore(rules, entities, records, i + 1)
         == UsedBefore(rules, entities, records, i) + {Selected(rules, entities, records)[i].key}
  {
    var selected := Selected(rules, entities, records);
    assert selected[..i + 1] == selected[..i] + [selected[i]];
  }

  lemma PlainKeyNextIff(rules: Rules, entities: seq<Entity>, records: seq<Record>, i: nat, key: string)
    requires Refreshed(rules, entities, records).Ok? && i < |records| && key != [] && !('0' <= key[|key| - 1] <= '9')
    ensures key in UsedBefore(rules, entities, records, i) || Selected(rules, entities, records)[i].key == key
       <==> key in UsedBefore(rules, entities, records, i) || Wants(rules, entities, records[i], key)
  {
    SelectedKey(rules, entities, records, i);
    if New(entities, records[i]) {
      PlainKeyTakenIff(BaseOf(rules, records[i]), UsedBefore(rules, entities, records, i), key);
    }
  }

  lemma PlainKeyTakenIff(base: string, used: set<string>, key: string)
    requires key != [] && !('0' <= key[|key| - 1] <= '9')
    ensures key in used || FreshKey(base, used) == key <==> key in used || base == key
  {
    var m := FreshKeyMeaning(base, used);
    if m > 1 {
      DecimalEndsInDigit(m);
      assert Candidate(base, m)[|Candidate(base, m)| - 1] == Decimal(m)[|Decimal(m)| - 1];
      assert Candidate(base, 1) in used;
    }
  }

  ghost predicate TaiwanKeyed(rules: Rules, entities: seq<Entity>, records: seq<Record>)
    requires Refreshed(rules, entities, records).Ok?
  {
    forall i :: 0 <= i < |records| && records[i].isoAlpha2 == TAIWAN && New(entities, records[i]) ==>
      Selected(rules, entities, records)[i].key == TAIWAN_KEY
  }

  /** A record for Taiwan meets an entity for it; or it is named so that it wants the usual
      key, which no preserved entity holds and no record before wants. */
  ghost predicate TaiwanSettled(rules: Rules, entities: seq<Entity>, records: seq<Record>) {
    forall i :: 0 <= i < |records| && records[i].isoAlpha2 == TAIWAN && New(entities, records[i]) ==>
      && Wants(rules, entities, records[i], TAIWAN_KEY)
      && TAIWAN_KEY !in KeysOf(Filter(entities, Preserved))
      && !WantedBefore(rules, entities, records, i, TAIWAN_KEY)
  }

  lemma TaiwanKeyedIff(rules: Rules, entities: seq<Entity>, records: seq<Record>)
    requires Refreshed(rules, entities, records).Ok?
    ensures TaiwanKeyed(rules, entities, records) <==> TaiwanSettled(rules, entities, records)
  {
    forall i | 0 <= i < |records| && New(entities, records[i])
      ensures Selected(rules, entities, records)[i].key == TAIWAN_KEY
         <==> Wants(rules, entities, records[i], TAIWAN_KEY)
              && TAIWAN_KEY !in KeysOf(Filter(entities, Preserved))
              && !WantedBefore(rules, entities, records, i, TAIWAN_KEY)
    {
      SelectedKey(rules, entities, records, i);
      PlainKeyUsedIff(rules, entities, records, i, TAIWAN_KEY);
      PlainKeyTakenIff(BaseOf(rules, records[i]), UsedBefore(rules, entities, records, i), TAIWAN_KEY);
    }
  }

  /** Whichever entity of the refreshed catalog carries the code of record `i`, building the
      record's entity from it gives the same entity again. */
  lemma RebuildsItself(rules: Rules, entities: seq<Entity>, records: seq<Record>, i: nat, y: Entity)
    requires Sound(rules, records) && IsoUnique(entities) && RecordsUnique(records) && i < |records|
    requires Refreshed(rules, entities, records).Ok? && y in Refreshed(rules, entities, records).value
    requires HasIso(y, records[i].isoAlpha2)
    requires TaiwanKeyed(rules, entities, records)
    ensures rules.classify(records[i].isoAlpha2).Some?
    ensures var selected := Select(rules, ExistingByIso(entities), records, KeysOf(Filter(entities, Preserved))).value;
      |selected| == |records|
      && selected[i] == Rebuild(Some(y), y.key, records[i].isoAlpha2, rules.classify(records[i].isoAlpha2).value)
  {
    var existing, used := ExistingByIso(entities), KeysOf(Filter(entities, Preserved));
    var selected, taiwan := Select(rules, existing, records, used).value, Taiwan(Known(existing, TAIWAN));
    var iso := records[i].isoAlpha2;
    var key := SelectAt(rules, existing, records, used, i);
    SortMembers(Combined(rules, selected, taiwan, entities, records), By(KeyOf, rules.collate));
    assert y in selected || y == taiwan || y in Filter(entities, Extra(taiwan.key)) || y in rules.regions(records);
    if y in selected {
      var j :| 0 <= j < |selected| && selected[j] == y;
      var other := SelectAt(rules, existing, records, used, j);
      assert i == j;
    } else if y == taiwan {
      ExistingMeaning(entities, TAIWAN);
    } else if y in Filter(entities, Extra(taiwan.key)) {
      OnlyOneHasIso(entities, iso, y);
    } else {
      assert false;
    }
  }

  lemma TaiwanRebuildsItself(rules: Rules, entities: seq<Entity>, records: seq<Record>, y: Entity)
    requires Sound(rules, records) && IsoUnique(entities) && RecordsUnique(records)
    requires Refreshed(rules, entities, records).Ok? && y in Refreshed(rules, entities, records).value
    requires HasIso(y, TAIWAN)
    requires TaiwanKeyed(rules, entities, records)
    ensures Taiwan(Some(y)) == Taiwan(Known(ExistingByIso(entities), TAIWAN))
  {
    var existing, used := ExistingByIso(entities), KeysOf(Filter(entities, Preserved));
    var selected, taiwan := Select(rules, existing, records, used).value, Taiwan(Known(existing, TAIWAN));
    SelectLength(rules, existing, records, used);
    SortMembers(Combined(rules, selected, taiwan, entities, records), By(KeyOf, rules.collate));
    assert y in selected || y == taiwan || y in Filter(entities, Extra(taiwan.key)) || y in rules.regions(records);
    if y in selected {
      var j :| 0 <= j < |selected| && selected[j] == y;
      var key := SelectAt(rules, existing, records, used, j);
      assert records[j].isoAlpha2 == TAIWAN;
      assert Selected(rules, entities, records)[j] == y;
    } else if y != taiwan {
      if y in Filter(entities, Extra(taiwan.key)) {
        OnlyOneHasIso(entities, TAIWAN, y);
      } else {
        assert false;
      }
    }
  }

  /** Records that are all known, by entities that rebuild themselves, select the same list
      whatever keys are used. */
  lemma {:induction false} SelectAgain(rules: Rules, existing: ByIso, records: seq<Record>, used: set<string>,
                                       target: seq<Entity>)
    requires |target| == |records|
    requires forall i :: 0 <= i < |records| ==> SelectsTo(rules, existing, records[i], target[i])
    ensures Select(rules, existing, records, used) == Ok(target)
    decreases |records|
  {
    if records != [] {
      assert SelectsTo(rules, existing, records[0], target[0]);
      var key := existing[records[0].isoAlpha2].key;
      forall i | 0 <= i < |records[1..]| ensures SelectsTo(rules, existing, records[1..][i], target[1..][i]) {
        assert SelectsTo(rules, existing, records[i + 1], target[i + 1]);
      }
      SelectAgain(rules, existing, records[1..], used + {key}, target[1..]);
      assert target == [target[0]] + target[1..];
    }
  }

  ghost predicate SelectsTo(rules: Rules, existing: ByIso, r: Record, e: Entity) {
    && r.isoAlpha2 in existing
    && rules.classify(r.isoAlpha2).Some?
    && e == Rebuild(Some(existing[r.isoAlpha2]), existing[r.isoAlpha2].key, r.isoAlpha2,
                    rules.classify(r.isoAlpha2).value)
  }

  /** The extras of the refreshed catalog are the extras there were. */
  lemma ExtrasStay(rules: Rules, selected: seq<Entity>, taiwan: Entity, entities: seq<Entity>, records: seq<Record>)
    requires Sound(rules, records) && taiwan.kind == Country && CUSTOM !in taiwan.identifiers
    requires forall e :: e in selected ==> e.kind in {Country, Territory, Area} && CUSTOM !in e.identifiers
    ensures var all := Combined(rules, selected, taiwan, entities, records);
      Filter(Sort(all, By(KeyOf, rules.collate)), Extra(taiwan.key))
      == Sort(Filter(entities, Extra(taiwan.key)), By(KeyOf, rules.collate))
  {
    var keep, extras, regions := Extra(taiwan.key), Filter(entities, Extra(taiwan.key)), rules.regions(records);
    var front := selected + [taiwan];
    ByOrder(KeyOf, rules.collate);
    FilterNone(front, keep);
    FilterAll(extras, keep);
    FilterNone(regions, keep);
    FilterConcat(front, extras, keep);
    FilterConcat(front + extras, regions, keep);
    assert Filter(Combined(rules, selected, taiwan, entities, records), keep) == extras;
    SortFilter(Combined(rules, selected, taiwan, entities, records), keep, By(KeyOf, rules.collate));
  }

  lemma TaiwanAgain(rules: Rules, entities: seq<Entity>, records: seq<Record>)
    requires Sound(rules, records) && IsoUnique(entities) && RecordsUnique(records)
    requires Refreshed(rules, entities, records).Ok? && TaiwanKeyed(rules, entities, records)
    ensures Taiwan(Known(ExistingByIso(Refreshed(rules, entities, records).value), TAIWAN))
         == Taiwan(Known(ExistingByIso(entities), TAIWAN))
  {
    var after, taiwan := Refreshed(rules, entities, records).value, Taiwan(Known(ExistingByIso(entities), TAIWAN));
    var all := Combined(rules, Selected(rules, entities, records), taiwan, entities, records);
    SortMembers(all, By(KeyOf, rules.collate));
    assert taiwan in all && HasIso(taiwan, TAIWAN);
    ExistingMeaning(after, TAIWAN);
    TaiwanRebuildsItself(rules, entities, records, ExistingByIso(after)[TAIWAN]);
  }

  lemma SelectedAreCountries(rules: Rules, existing: ByIso, records: seq<Record>, used: set<string>)
    requires Sound(rules, records) && Select(rules, existing, records, used).Ok?
    ensures forall e :: e in Select(rules, existing, records, used).value ==>
              e.kind in {Country, Territory, Area} && CUSTOM !in e.identifiers
  {
    var selected := Select(rules, existing, records, used).value;
    SelectLength(rules, existing, records, used);
    forall e | e in selected ensures e.kind in {Country, Territory, Area} && CUSTOM !in e.identifiers {
      var i :| 0 <= i < |selected| && selected[i] == e;
      var key := SelectAt(rules, existing, records, used, i);
    }
  }

  lemma SettledRefreshIdempotent(rules: Rules, entities: seq<Entity>, records: seq<Record>)
    requires Sound(rules, records) && IsoUnique(entities) && RecordsUnique(records)
    requires Refreshed(rules, entities, records).Ok? && TaiwanKeyed(rules, entities, records)
    ensures Refreshed(rules, Refreshed(rules, entities, records).value, records) == Refreshed(rules, entities, records)
  {
    var existing, used := ExistingByIso(entities), KeysOf(Filter(entities, Preserved));
    var selected, taiwan := Select(rules, existing, records, used).value, Taiwan(Known(existing, TAIWAN));
    var all := Combined(rules, selected, taiwan, entities, records);
    var after := Sort(all, By(KeyOf, rules.collate));
    var again := ExistingByIso(after);
    SelectLength(rules, existing, records, used);
    forall i | 0 <= i < |records| ensures SelectsTo(rules, again, records[i], selected[i]) {
      FoundAgain(rules, entities, records, i);
    }
    SelectAgain(rules, again, records, KeysOf(Filter(after, Preserved)), selected);
    TaiwanAgain(rules, entities, records);
    SelectedAreCountries(rules, existing, records, used);
    ExtrasStay(rules, selected, taiwan, entities, records);
    ByOrder(KeyOf, rules.collate);
    PresortedPart(selected + [taiwan], Filter(entities, Extra(taiwan.key)), rules.regions(records),
                  By(KeyOf, rules.collate));
  }

  /** After a second refresh everything coded Taiwan has one key. */
  lemma OneTaiwanKey(rules: Rules, entities: seq<Entity>, records: seq<Record>, x: Entity)
    requires Sound(rules, records) && RecordsUnique(records)
    requires Refreshed(rules, entities, records).Ok? && TAIWAN !in ExistingByIso(entities)
    requires Refreshed(rules, Refreshed(rules, entities, records).value, records).Ok?
    requires x in Refreshed(rules, Refreshed(rules, entities, records).value, records).value && HasIso(x, TAIWAN)
    ensures TAIWAN in ExistingByIso(Refreshed(rules, entities, records).value)
    ensures x.key == ExistingByIso(Refreshed(rules, entities, records).value)[TAIWAN].key
  {
    var after := Refreshed(rules, entities, records).value;
    var taiwan, again := Taiwan(Known(ExistingByIso(entities), TAIWAN)), ExistingByIso(after);
    var all := Combined(rules, Selected(rules, entities, records), taiwan, entities, records);
    SortMembers(all, By(KeyOf, rules.collate));
    assert taiwan in all && HasIso(taiwan, TAIWAN);
    ExistingMeaning(after, TAIWAN);
    NoTaiwanAmongExtras(rules, entities, records);
    var selected2, taiwan2 := Selected(rules, after, records), Taiwan(Known(again, TAIWAN));
    SortMembers(Combined(rules, selected2, taiwan2, after, records), By(KeyOf, rules.collate));
    assert x in selected2 || x == taiwan2 || x in Filter(after, Extra(taiwan2.key)) || x in rules.regions(records);
    if x in selected2 {
      var j :| 0 <= j < |selected2| && selected2[j] == x;
      var key := SelectAt(rules, again, records, KeysOf(Filter(after, Preserved)), j);
    }
  }

  lemma NoTaiwanAmongExtras(rules: Rules, entities: seq<Entity>, records: seq<Record>)
    requires Sound(rules, records)
    requires Refreshed(rules, entities, records).Ok? && TAIWAN !in ExistingByIso(entities)
    ensures forall e :: e in Refreshed(rules, entities, records).value && Preserved(e) ==> !HasIso(e, TAIWAN)
  {
    var existing, used := ExistingByIso(entities), KeysOf(Filter(entities, Preserved));
    var selected, taiwan := Selected(rules, entities, records), Taiwan(Known(existing, TAIWAN));
    SortMembers(Combined(rules, selected, taiwan, entities, records), By(KeyOf, rules.collate));
    ExistingMeaning(entities, TAIWAN);
    forall e | e in Refreshed(rules, entities, records).value && Preserved(e) ensures !HasIso(e, TAIWAN) {
      assert e in selected || e == taiwan || e in Filter(entities, Extra(taiwan.key)) || e in rules.regions(records);
      if e in selected {
        var j :| 0 <= j < |selected| && selected[j] == e;
        var key := SelectAt(rules, existing, records, used, j);
      }
    }
  }

  /** With unique codes, refreshing twice is refreshing once exactly when Taiwan is settled.
      Otherwise the first refresh leaves two entities for it under two keys, and the second
      gives both the key of one. */
  lemma RefreshIdempotentIff(rules: Rules, entities: seq<Entity>, records: seq<Record>)
    requires Sound(rules, records) && IsoUnique(entities) && RecordsUnique(records)
    requires Refreshed(rules, entities, records).Ok?
    ensures Refreshed(rules, Refreshed(rules, entities, records).value, records) == Refreshed(rules, entities, records)
       <==> TaiwanSettled(rules, entities, records)
  {
    TaiwanKeyedIff(rules, entities, records);
    if TaiwanKeyed(rules, entities, records) {
      SettledRefreshIdempotent(rules, entities, records);
    }
    var after := Refreshed(rules, entities, records).value;
    if Refreshed(rules, after, records) == Ok(after) {
      TwiceKeysTaiwan(rules, entities, records);
    }
  }

  lemma TwiceKeysTaiwan(rules: Rules, entities: seq<Entity>, records: seq<Record>)
    requires Sound(rules, records) && RecordsUnique(records) && Refreshed(rules, entities, records).Ok?
    requires Refreshed(rules, Refreshed(rules, entities, records).value, records) == Refreshed(rules, entities, records)
    ensures TaiwanKeyed(rules, entities, records)
  {
    var existing, after := ExistingByIso(entities), Refreshed(rules, entities, records).value;
    forall i | 0 <= i < |records| && records[i].isoAlpha2 == TAIWAN && New(entities, records[i])
      ensures Selected(rules, entities, records)[i].key == TAIWAN_KEY
    {
      var selected, taiwan := Selected(rules, entities, records), Taiwan(Known(existing, TAIWAN));
      var key := SelectAt(rules, existing, records, KeysOf(Filter(entities, Preserved)), i);
      var all := Combined(rules, selected, taiwan, entities, records);
      SortMembers(all, By(KeyOf, rules.collate));
      assert selected[i] in all && taiwan in all;
      OneTaiwanKey(rules, entities, records, selected[i]);
      OneTaiwanKey(rules, entities, records, taiwan);
    }
  }

  lemma FoundAgain(rules: Rules, entities: seq<Entity>, records: seq<Record>, i: nat)
    requires Sound(rules, records) && IsoUnique(entities) && RecordsUnique(records) && i < |records|
    requires Refreshed(rules, entities, records).Ok? && TaiwanKeyed(rules, entities, records)
    ensures var selected := Select(rules, ExistingByIso(entities), records, KeysOf(Filter(entities, Preserved))).value;
      |selected| == |records|
      && SelectsTo(rules, ExistingByIso(Refreshed(rules, entities, records).value), records[i], selected[i])
  {
    var existing, used := ExistingByIso(entities), KeysOf(Filter(entities, Preserved));
    var selected := Select(rules, existing, records, used).value;
    var after, iso := Refreshed(rules, entities, records).value, records[i].isoAlpha2;
    var key := SelectAt(rules, existing, records, used, i);
    var all := Combined(rules, selected, Taiwan(Known(existing, TAIWAN)), entities, records);
    SortMembers(all, By(KeyOf, rules.collate));
    assert selected[i] in all && HasIso(selected[i], iso);
    ExistingMeaning(after, iso);
    assert records[i] in records;
    RebuildsItself(rules, entities, records, i, ExistingByIso(after)[iso]);
  }

  /** A record for Taiwan under any other name, in a catalog without an entity for it: the
      second refresh changes the catalog again. */
  lemma RenamedTaiwanIsRefreshedTwice(rules: Rules, r: Record)
    requires Sound(rules, [r]) && r.isoAlpha2 == TAIWAN && rules.slug(r.countryOrArea) != "taiwan"
    ensures Refreshed(rules, [], [r]).Ok?
    ensures Refreshed(rules, Refreshed(rules, [], [r]).value, [r]) != Refreshed(rules, [], [r])
  {
    var existing, used := ExistingByIso([]), KeysOf(Filter([], Preserved));
    var key := KeyFor(rules, existing, r, rules.classify(TAIWAN).value.kind, used);
    assert [r][1..] == [] && Select(rules, existing, [r][1..], used + {key}) == Ok([]);
    assert Select(rules, existing, [r], used).Ok?;
    var base := BaseOf(rules, r);
    assert base[8..] == rules.slug(r.countryOrArea) && TAIWAN_KEY[8..] == "taiwan";
    assert !Wants(rules, [], [r][0], TAIWAN_KEY);
    RefreshIdempotentIff(rules, [], [r]);
  }
}
