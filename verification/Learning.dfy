/** Which cards a release can publish, what its decks hold, and the learning cards built
    from both. */
module Learning {
  import opened Types
  import opened Sorting
  import opened EditorialSchema
  import opened Numerals
  import PathWrites

  datatype AssetType = FlagDrawing | CoatOfArms | MapDrawing

  datatype Representation = Representation(mimeType: string, sha256: string)

  datatype BuiltAsset = BuiltAsset(
    key: string, entityKey: string, assetType: AssetType, variant: string, representations: seq<Representation>)

  const FLAG_TEMPLATE_CODE: string := "FLAG_TO_COUNTRY"
  const COAT_TEMPLATE_CODE: string := "COAT_OF_ARMS_TO_COUNTRY"
  const TEMPLATES: seq<string> := [FLAG_TEMPLATE_CODE, COAT_TEMPLATE_CODE]
  const SVG: string := "image/svg+xml"

  function PromptAssetTypeOf(templateCode: string): Option<AssetType> {
    if templateCode == FLAG_TEMPLATE_CODE then Some(FlagDrawing)
    else if templateCode == COAT_TEMPLATE_CODE then Some(CoatOfArms)
    else None
  }

  // ---- One card variant as a string --------------------------------------------------------

  function VariantKey(v: CardVariant): string {
    v.entityKey + [':'] + (v.templateCode + [':'] + Decimal(v.templateSchemaVersion))
  }

  /** Two cards share a key only if one of their template codes holds a colon. */
  lemma VariantKeyFaithful(v: CardVariant, w: CardVariant)
    requires VariantKey(v) == VariantKey(w) && ':' !in v.templateCode && ':' !in w.templateCode
    ensures v == w
  {
    KeyParts(v);
    KeyParts(w);
    var p, q := PathWrites.Split(v.entityKey, ':'), PathWrites.Split(w.entityKey, ':');
    var s := PathWrites.Split(VariantKey(v), ':');
    assert s[..|s| - 2] == p && s[..|s| - 2] == q;
    assert s[|s| - 2] == v.templateCode && s[|s| - 2] == w.templateCode;
    assert s[|s| - 1] == Decimal(v.templateSchemaVersion) && s[|s| - 1] == Decimal(w.templateSchemaVersion);
    PathWrites.JoinSplit(v.entityKey, ':');
    PathWrites.JoinSplit(w.entityKey, ':');
    DecimalFaithful(v.templateSchemaVersion, w.templateSchemaVersion);
  }

  lemma KeyParts(v: CardVariant)
    requires ':' !in v.templateCode
    ensures PathWrites.Split(VariantKey(v), ':')
         == PathWrites.Split(v.entityKey, ':') + [v.templateCode, Decimal(v.templateSchemaVersion)]
  {
    var tail := v.templateCode + [':'] + Decimal(v.templateSchemaVersion);
    PathWrites.SplitConcat(v.entityKey, ':', tail);
    PathWrites.SplitAt(v.templateCode, ':', Decimal(v.templateSchemaVersion));
    DecimalHasNoColon(v.templateSchemaVersion);
    PathWrites.SplitClean(Decimal(v.templateSchemaVersion), ':');
    assert [v.templateCode] + [Decimal(v.templateSchemaVersion)] == [v.templateCode, Decimal(v.templateSchemaVersion)];
  }

  // ---- Drawings -------------------------------------------------------------------------------

  function AssetsOf(assets: seq<BuiltAsset>, entityKey: string): seq<BuiltAsset> {
    Filter(assets, (a: BuiltAsset) => a.entityKey == entityKey)
  }

  predicate Prompts(a: BuiltAsset, templateCode: string) {
    Some(a.assetType) == PromptAssetTypeOf(templateCode) && a.variant == DEFAULT_ASSET_VARIANT
  }

  function PromptAssetOf(assets: seq<BuiltAsset>, templateCode: string): Option<BuiltAsset> {
    if assets == [] then None
    else if Prompts(assets[0], templateCode) then Some(assets[0])
    else PromptAssetOf(assets[1..], templateCode)
  }

  lemma {:induction false} PromptAssetFound(assets: seq<BuiltAsset>, templateCode: string)
    ensures PromptAssetOf(assets, templateCode).Some? <==> exists a :: a in assets && Prompts(a, templateCode)
    ensures PromptAssetOf(assets, templateCode).Some? ==>
              && PromptAssetOf(assets, templateCode).value in assets
              && Prompts(PromptAssetOf(assets, templateCode).value, templateCode)
  {
    if assets != [] && !Prompts(assets[0], templateCode) { PromptAssetFound(assets[1..], templateCode); }
  }

  /** The card can ask its question with this drawing: the current flag or the current coat of
      arms of its entity, as its template says. */
  ghost predicate AsksWith(a: BuiltAsset, v: CardVariant) {
    && a.entityKey == v.entityKey && a.variant == "current"
    && ((v.templateCode == "FLAG_TO_COUNTRY" && a.assetType == FlagDrawing)
        || (v.templateCode == "COAT_OF_ARMS_TO_COUNTRY" && a.assetType == CoatOfArms))
  }

  /** The drawing the card asks its question with exists. */
  ghost predicate Drawn(assets: seq<BuiltAsset>, v: CardVariant) {
    exists a :: a in assets && AsksWith(a, v)
  }

  function Resolved(assets: seq<BuiltAsset>): CardVariant -> bool {
    (v: CardVariant) => PromptAssetOf(AssetsOf(assets, v.entityKey), v.templateCode).Some?
  }

  lemma ResolvedIffDrawn(assets: seq<BuiltAsset>, v: CardVariant)
    ensures Resolved(assets)(v) <==> Drawn(assets, v)
  {
    var own := AssetsOf(assets, v.entityKey);
    PromptAssetFound(own, v.templateCode);
    assert forall a :: a in own <==> a in assets && a.entityKey == v.entityKey;
  }

  type Index = map<string, seq<BuiltAsset>>

  function Find(m: Index, entityKey: string): seq<BuiltAsset> {
    if entityKey in m then m[entityKey] else []
  }

  method IndexAssets(assets: seq<BuiltAsset>) returns (m: Index)
    ensures forall e :: Find(m, e) == AssetsOf(assets, e)
  {
    m := map[];
    for n := 0 to |assets|
      invariant forall e :: Find(m, e) == AssetsOf(assets[..n], e)
    {
      assert assets[..n + 1] == assets[..n] + [assets[n]];
      ghost var before := m;
      m := m[assets[n].entityKey := Find(m, assets[n].entityKey) + [assets[n]]];
      forall e ensures Find(m, e) == AssetsOf(assets[..n + 1], e) {
        assert Find(before, e) == AssetsOf(assets[..n], e);
        FilterConcat(assets[..n], [assets[n]], (a: BuiltAsset) => a.entityKey == e);
      }
    }
    assert assets[..|assets|] == assets;
  }

  // ---- Resolving the requested cards -------------------------------------------------------------

  type Collation = (string, string) -> bool

  /** By entity, then by template; `collate` stands for `localeCompare`. */
  predicate EntityThenTemplate(l: CardVariant, r: CardVariant, collate: Collation) {
    if l.entityKey == r.entityKey then collate(l.templateCode, r.templateCode) else collate(l.entityKey, r.entityKey)
  }

  function ByEntityThenTemplate(collate: Collation): (CardVariant, CardVariant) -> bool {
    (l, r) => EntityThenTemplate(l, r, collate)
  }

  /** By entity and, within one, by template. */
  ghost predicate InEntityOrder(s: seq<CardVariant>, collate: Collation) {
    forall i, j :: 0 <= i < j < |s| ==>
      if s[i].entityKey == s[j].entityKey then collate(s[i].templateCode, s[j].templateCode)
      else collate(s[i].entityKey, s[j].entityKey)
  }

  lemma {:induction false} SortsByEntity(s: seq<CardVariant>, collate: Collation)
    requires TotalPreorder(collate) && Antisymmetric(collate)
    ensures InEntityOrder(Sort(s, ByEntityThenTemplate(collate)), collate)
  {
    var leq := ByEntityThenTemplate(collate);
    forall x, y, z | leq(x, y) && leq(y, z) ensures leq(x, z) {
      EntityThenTemplateTransitive(x, y, z, collate);
    }
    assert TotalPreorder(leq);
    SortSorted(s, leq);
    var r := Sort(s, leq);
    forall i, j | 0 <= i < j < |r| ensures EntityThenTemplate(r[i], r[j], collate) { assert leq(r[i], r[j]); }
  }

  lemma EntityThenTemplateTransitive(x: CardVariant, y: CardVariant, z: CardVariant, collate: Collation)
    requires TotalPreorder(collate) && Antisymmetric(collate)
    requires EntityThenTemplate(x, y, collate) && EntityThenTemplate(y, z, collate)
    ensures EntityThenTemplate(x, z, collate)
  {
  }

  function Published(requested: seq<CardVariant>, assets: seq<BuiltAsset>, collate: Collation): seq<CardVariant> {
    Sort(Filter(FirstOfEach(requested, VariantKey), Resolved(assets)), ByEntityThenTemplate(collate))
  }

  function Missing(requested: seq<CardVariant>, assets: seq<BuiltAsset>, collate: Collation): seq<CardVariant> {
    Sort(Filter(FirstOfEach(requested, VariantKey), Not(Resolved(assets))), ByEntityThenTemplate(collate))
  }

  ghost predicate SplitSoFar(requested: seq<CardVariant>, assets: seq<BuiltAsset>, seen: set<string>,
                             published: seq<CardVariant>, missing: seq<CardVariant>) {
    && (forall k :: k in seen <==> HasKey(FirstOfEach(requested, VariantKey), VariantKey, k))
    && published == Filter(FirstOfEach(requested, VariantKey), Resolved(assets))
    && missing == Filter(FirstOfEach(requested, VariantKey), Not(Resolved(assets)))
  }

  lemma SplitOneMore(requested: seq<CardVariant>, v: CardVariant, assets: seq<BuiltAsset>, seen: set<string>,
                     published: seq<CardVariant>, missing: seq<CardVariant>)
    requires SplitSoFar(requested, assets, seen, published, missing)
    ensures if VariantKey(v) in seen then SplitSoFar(requested + [v], assets, seen, published, missing)
            else if Resolved(assets)(v) then
              SplitSoFar(requested + [v], assets, seen + {VariantKey(v)}, published + [v], missing)
            else SplitSoFar(requested + [v], assets, seen + {VariantKey(v)}, published, missing + [v])
  {
    FirstOfEachStep(requested, v, VariantKey);
    if VariantKey(v) !in seen {
      HasKeyOneMore(FirstOfEach(requested, VariantKey), v, VariantKey);
      FilterOneMore(FirstOfEach(requested, VariantKey), v, Resolved(assets));
      FilterOneMore(FirstOfEach(requested, VariantKey), v, Not(Resolved(assets)));
    }
  }

  method ResolveCardVariants(requested: seq<CardVariant>, assets: seq<BuiltAsset>, collate: Collation)
    returns (published: seq<CardVariant>, missing: seq<CardVariant>)
    ensures published == Published(requested, assets, collate)
    ensures missing == Missing(requested, assets, collate)
  {
    var assetsByEntity := IndexAssets(assets);
    var seen: set<string> := {};
    published, missing := [], [];
    for n := 0 to |requested|
      invariant SplitSoFar(requested[..n], assets, seen, published, missing)
    {
      var variant := requested[n];
      assert requested[..n + 1] == requested[..n] + [variant];
      SplitOneMore(requested[..n], variant, assets, seen, published, missing);
      if VariantKey(variant) in seen { continue; }
      seen := seen + {VariantKey(variant)};
      assert Find(assetsByEntity, variant.entityKey) == AssetsOf(assets, variant.entityKey);
      if PromptAssetOf(Find(assetsByEntity, variant.entityKey), variant.templateCode).None? {
        missing := missing + [variant];
        continue;
      }
      published := published + [variant];
    }
    assert requested[..|requested|] == requested;
    published := Sort(published, ByEntityThenTemplate(collate));
    missing := Sort(missing, ByEntityThenTemplate(collate));
  }

  /** No two different requests share a key. */
  ghost predicate Faithful(requested: seq<CardVariant>) {
    forall v, w :: v in requested && w in requested && VariantKey(v) == VariantKey(w) ==> v == w
  }

  lemma ColonFreeIsFaithful(requested: seq<CardVariant>)
    requires forall v :: v in requested ==> ':' !in v.templateCode
    ensures Faithful(requested)
  {
    forall v, w | v in requested && w in requested && VariantKey(v) == VariantKey(w) ensures v == w {
      VariantKeyFaithful(v, w);
    }
  }

  lemma {:induction false} FilterSplits<T(!new)>(s: seq<T>, keep: T -> bool)
    ensures multiset(Filter(s, keep)) + multiset(Filter(s, Not(keep))) == multiset(s)
  {
    if s != [] {
      FilterSplits(s[1..], keep);
      assert s == [s[0]] + s[1..];
      assert multiset(s) == multiset{s[0]} + multiset(s[1..]);
      if keep(s[0]) {
        assert Filter(s, Not(keep)) == Filter(s[1..], Not(keep));
      } else {
        assert Filter(s, keep) == Filter(s[1..], keep);
      }
    }
  }

  /** The requested keys are split without loss or repetition: every key once, published
      when its drawing exists and missing when it does not. */
  lemma SplitIsExact(requested: seq<CardVariant>, assets: seq<BuiltAsset>, collate: Collation)
    ensures multiset(Published(requested, assets, collate)) + multiset(Missing(requested, assets, collate))
         == multiset(FirstOfEach(requested, VariantKey))
    ensures KeysDiffer(FirstOfEach(requested, VariantKey), VariantKey)
    ensures forall v :: v in requested ==> HasKey(FirstOfEach(requested, VariantKey), VariantKey, VariantKey(v))
    ensures forall v :: v in Published(requested, assets, collate)
                   <==> v in FirstOfEach(requested, VariantKey) && Drawn(assets, v)
    ensures forall v :: v in Missing(requested, assets, collate)
                   <==> v in FirstOfEach(requested, VariantKey) && !Drawn(assets, v)
  {
    var first, order := FirstOfEach(requested, VariantKey), ByEntityThenTemplate(collate);
    var keep := Resolved(assets);
    FirstOfEachMeaning(requested, VariantKey);
    SplitSorted(first, keep, order);
    forall v ensures keep(v) <==> Drawn(assets, v) { ResolvedIffDrawn(assets, v); }
  }

  /** Both lists come out by entity and, within one, by template. */
  lemma {:induction false} SplitIsOrdered(requested: seq<CardVariant>, assets: seq<BuiltAsset>, collate: Collation)
    requires TotalPreorder(collate) && Antisymmetric(collate)
    ensures InEntityOrder(Published(requested, assets, collate), collate)
    ensures InEntityOrder(Missing(requested, assets, collate), collate)
  {
    SortsByEntity(Filter(FirstOfEach(requested, VariantKey), Resolved(assets)), collate);
    SortsByEntity(Filter(FirstOfEach(requested, VariantKey), Not(Resolved(assets))), collate);
  }

  lemma SplitSorted<T(!new)>(s: seq<T>, keep: T -> bool, leq: (T, T) -> bool)
    ensures multiset(Sort(Filter(s, keep), leq)) + multiset(Sort(Filter(s, Not(keep)), leq)) == multiset(s)
    ensures forall x :: x in Sort(Filter(s, keep), leq) <==> x in s && keep(x)
    ensures forall x :: x in Sort(Filter(s, Not(keep)), leq) <==> x in s && !keep(x)
  {
    var drop := Not(keep);
    FilterSplits(s, keep);
    SortMultiset(Filter(s, keep), leq);
    SortMultiset(Filter(s, drop), leq);
    SortMembers(Filter(s, keep), leq);
    SortMembers(Filter(s, drop), leq);
  }

  /** Every request is honoured — published exactly when it is drawn — if and only if no
      two different requests share a key. */
  lemma RequestsHonouredIff(requested: seq<CardVariant>, assets: seq<BuiltAsset>, collate: Collation)
    ensures (forall v :: v in requested ==>
               if Drawn(assets, v) then v in Published(requested, assets, collate)
               else v in Missing(requested, assets, collate))
       <==> Faithful(requested)
  {
    var first := FirstOfEach(requested, VariantKey);
    SplitIsExact(requested, assets, collate);
    FirstOfEachMeaning(requested, VariantKey);
    if Faithful(requested) {
      forall v | v in requested ensures v in first {
        assert HasKey(first, VariantKey, VariantKey(v));
      }
    }
    if forall v :: v in requested ==> v in first {
      DifferentKeysFaithful(requested, first);
    }
  }

  lemma DifferentKeysFaithful(requested: seq<CardVariant>, first: seq<CardVariant>)
    requires KeysDiffer(first, VariantKey) && forall v :: v in requested ==> v in first
    ensures Faithful(requested)
  {
    forall v, w | v in requested && w in requested && VariantKey(v) == VariantKey(w) ensures v == w {
      var i :| 0 <= i < |first| && first[i] == v;
      var j :| 0 <= j < |first| && first[j] == w;
      assert i == j;
    }
  }

  // ---- Decks ----------------------------------------------------------------------------------------

  /** Everything the release is asked for: the flag of every learnable entity, and what
      the decks request. */
  function Flags(learnable: seq<string>): seq<CardVariant> {
    seq(|learnable|, i requires 0 <= i < |learnable| => CardVariant(learnable[i], FLAG_TEMPLATE_CODE, 1))
  }

  function Flatten(decks: seq<seq<CardVariant>>): seq<CardVariant> {
    if decks == [] then [] else decks[0] + Flatten(decks[1..])
  }

  lemma {:induction false} FlattenHolds(decks: seq<seq<CardVariant>>, i: nat)
    requires i < |decks|
    ensures forall v :: v in decks[i] ==> v in Flatten(decks)
  {
    if i > 0 { FlattenHolds(decks[1..], i - 1); }
  }

  function Pool(learnable: seq<string>, decks: seq<seq<CardVariant>>): seq<CardVariant> {
    Flags(learnable) + Flatten(decks)
  }

  function KeysOf(variants: seq<CardVariant>): set<string> {
    set v | v in variants :: VariantKey(v)
  }

  function MemberCards(requested: seq<CardVariant>, publishedKeys: set<string>): seq<CardVariant> {
    Filter(requested, (v: CardVariant) => VariantKey(v) in publishedKeys)
  }

  /** A deck holds what it asked for, in order, minus what nobody has drawn; and each card
      it holds is published, once. */
  lemma DeckHoldsItsRequest(learnable: seq<string>, decks: seq<seq<CardVariant>>, i: nat,
                            assets: seq<BuiltAsset>, collate: Collation)
    requires i < |decks| && Faithful(Pool(learnable, decks))
    ensures var published := Published(Pool(learnable, decks), assets, collate);
      var members := MemberCards(decks[i], KeysOf(published));
      && members == Filter(decks[i], Resolved(assets))
      && (forall v :: v in members <==> v in decks[i] && Drawn(assets, v))
      && (forall v :: v in members ==> multiset(published)[v] == 1)
  {
    var pool := Pool(learnable, decks);
    var published := Published(pool, assets, collate);
    FlattenHolds(decks, i);
    RequestsHonouredIff(pool, assets, collate);
    SplitIsExact(pool, assets, collate);
    FirstOfEachMeaning(pool, VariantKey);
    forall v | v in decks[i] ensures VariantKey(v) in KeysOf(published) <==> Resolved(assets)(v) {
      ResolvedIffDrawn(assets, v);
      assert v in pool;
      if w :| w in published && VariantKey(w) == VariantKey(v) {
        assert w in pool;
      }
    }
    FilterAgrees(decks[i], (v: CardVariant) => VariantKey(v) in KeysOf(published), Resolved(assets));
    forall v ensures Resolved(assets)(v) <==> Drawn(assets, v) { ResolvedIffDrawn(assets, v); }
    PublishedOnce(pool, assets, collate);
  }

  lemma PublishedOnce(requested: seq<CardVariant>, assets: seq<BuiltAsset>, collate: Collation)
    ensures Distinct(Published(requested, assets, collate))
    ensures forall v :: v in Published(requested, assets, collate) ==>
              multiset(Published(requested, assets, collate))[v] == 1
  {
    var first, published := FirstOfEach(requested, VariantKey), Published(requested, assets, collate);
    FirstOfEachMeaning(requested, VariantKey);
    SplitIsExact(requested, assets, collate);
    DistinctCopies(first);
    DistinctCopies(published);
    forall v ensures multiset(published)[v] <= 1 {
      assert multiset(published)[v] <= multiset(first)[v];
    }
    forall v | v in published ensures multiset(published)[v] == 1 { assert v in multiset(published); }
  }

  // ---- Learning cards -----------------------------------------------------------------------------------

  datatype Card = Card(variant: CardVariant, promptAssetKey: string, promptFingerprint: string)

  datatype LearningError = NoPromptAsset(variant: CardVariant) | NoVector(assetKey: string)

  datatype LearningContent = LearningContent(templates: seq<string>, cards: seq<Card>)

  function Vector(reps: seq<Representation>): Option<string> {
    if reps == [] then None else if reps[0].mimeType == SVG then Some(reps[0].sha256) else Vector(reps[1..])
  }

  function AssetKeyOf(a: BuiltAsset): string {
    a.key
  }

  /** The asset a card is built from: the first prompt asset of its entity in key order. */
  function PromptOf(assets: seq<BuiltAsset>, v: CardVariant, collate: Collation): Option<BuiltAsset> {
    PromptAssetOf(Sort(AssetsOf(assets, v.entityKey), By(AssetKeyOf, collate)), v.templateCode)
  }

  function BuildCard(assets: seq<BuiltAsset>, v: CardVariant, collate: Collation, sha256: string -> string)
    : Result<Card, LearningError>
  {
    var asset := PromptOf(assets, v, collate);
    if asset.None? then Err(NoPromptAsset(v))
    else
      var checksum := Vector(asset.value.representations);
      if checksum.None? then Err(NoVector(asset.value.key))
      else Ok(Card(v, asset.value.key, sha256(v.entityKey + ":" + v.templateCode + ":1:" + checksum.value)))
  }

  // ---- What a card is made of -----------------------------------------------------------------

  /** Of the drawings the card can ask with, the one whose key comes first. */
  ghost predicate AsksFirstWith(assets: seq<BuiltAsset>, v: CardVariant, collate: Collation, a: BuiltAsset) {
    && a in assets && AsksWith(a, v)
    && forall b :: b in assets && AsksWith(b, v) ==> collate(a.key, b.key)
  }

  /** The first of the representations that is a vector has this checksum. */
  ghost predicate FirstVector(reps: seq<Representation>, checksum: string) {
    exists n :: 0 <= n < |reps| && reps[n] == Representation("image/svg+xml", checksum)
             && forall m :: 0 <= m < n ==> reps[m].mimeType != "image/svg+xml"
  }

  ghost predicate NoneIsVector(reps: seq<Representation>) {
    forall rep :: rep in reps ==> rep.mimeType != "image/svg+xml"
  }

  lemma {:induction false} VectorMeaning(reps: seq<Representation>)
    ensures match Vector(reps) case None => NoneIsVector(reps) case Some(checksum) => FirstVector(reps, checksum)
  {
    if reps != [] && reps[0].mimeType != SVG {
      var rest := reps[1..];
      VectorMeaning(rest);
      if Vector(rest).Some? {
        var n :| 0 <= n < |rest| && rest[n] == Representation("image/svg+xml", Vector(rest).value)
                 && forall m :: 0 <= m < n ==> rest[m].mimeType != "image/svg+xml";
        forall m | 0 <= m < n + 1 ensures reps[m].mimeType != "image/svg+xml" {
          if m > 0 { assert rest[m - 1] == reps[m]; }
        }
        assert reps[n + 1] == rest[n];
      }
    }
  }

  lemma {:induction false} FirstPrompts(assets: seq<BuiltAsset>, code: string, leq: (BuiltAsset, BuiltAsset) -> bool,
                                        b: BuiltAsset)
    requires TotalPreorder(leq) && Sorted(assets, leq) && b in assets && Prompts(b, code)
    ensures PromptAssetOf(assets, code).Some? && leq(PromptAssetOf(assets, code).value, b)
  {
    if Prompts(assets[0], code) {
      var i :| 0 <= i < |assets| && assets[i] == b;
      assert i > 0 ==> leq(assets[0], assets[i]);
      assert leq(b, b);
    } else {
      FirstPrompts(assets[1..], code, leq, b);
    }
  }

  lemma PromptMeaning(assets: seq<BuiltAsset>, v: CardVariant, collate: Collation)
    requires TotalPreorder(collate)
    ensures match PromptOf(assets, v, collate) case None => !Drawn(assets, v)
            case Some(a) => AsksFirstWith(assets, v, collate, a)
  {
    var own, order := AssetsOf(assets, v.entityKey), By(AssetKeyOf, collate);
    ByOrder(AssetKeyOf, collate);
    SortSorted(own, order);
    SortMembers(own, order);
    PromptAssetFound(Sort(own, order), v.templateCode);
    forall b | b in assets && AsksWith(b, v)
      ensures PromptOf(assets, v, collate).Some? && collate(PromptOf(assets, v, collate).value.key, b.key)
    {
      FirstPrompts(Sort(own, order), v.templateCode, order, b);
    }
  }

  /** What a card says: it asks with the drawing whose key comes first, and its fingerprint is
      made of the checksum of that drawing's first vector. It cannot be built exactly when there
      is no drawing or the drawing has no vector. */
  lemma {:induction false} CardMeaning(assets: seq<BuiltAsset>, v: CardVariant, collate: Collation,
                                       sha256: string -> string)
    requires TotalPreorder(collate)
    ensures match BuildCard(assets, v, collate, sha256)
      case Ok(card) =>
        && card.variant == v
        && exists a, checksum :: AsksFirstWith(assets, v, collate, a) && FirstVector(a.representations, checksum)
             && card.promptAssetKey == a.key
             && card.promptFingerprint == sha256(v.entityKey + ":" + v.templateCode + ":1:" + checksum)
      case Err(NoPromptAsset(w)) => w == v && !Drawn(assets, v)
      case Err(NoVector(key)) =>
        exists a :: AsksFirstWith(assets, v, collate, a) && a.key == key && NoneIsVector(a.representations)
  {
    PromptMeaning(assets, v, collate);
    var prompt := PromptOf(assets, v, collate);
    if prompt.Some? { VectorMeaning(prompt.value.representations); }
  }

  function UsedTemplates(cards: seq<Card>): seq<string> {
    Filter(TEMPLATES, UsedBy(cards))
  }

  function UsedBy(cards: seq<Card>): string -> bool {
    (code: string) => exists c :: c in cards && c.variant.templateCode == code
  }

  method BuildLearningContent(variants: seq<CardVariant>, assets: seq<BuiltAsset>, collate: Collation,
                              sha256: string -> string)
    returns (r: Result<LearningContent, LearningError>)
    ensures r.Ok? <==> forall v :: v in variants ==> BuildCard(assets, v, collate, sha256).Ok?
    ensures r.Ok? ==>
              && |r.value.cards| == |variants|
              && (forall i :: 0 <= i < |variants| ==>
                    BuildCard(assets, variants[i], collate, sha256) == Ok(r.value.cards[i]))
              && r.value.templates == UsedTemplates(r.value.cards)
    ensures r.Err? ==> exists v :: v in variants && BuildCard(assets, v, collate, sha256) == Err(r.error)
  {
    var cards: seq<Card> := [];
    for n := 0 to |variants|
      invariant |cards| == n
      invariant forall i :: 0 <= i < n ==> BuildCard(assets, variants[i], collate, sha256) == Ok(cards[i])
    {
      var card := BuildCard(assets, variants[n], collate, sha256);
      if card.Err? {
        return Err(card.error);
      }
      cards := cards + [card.value];
    }
    return Ok(LearningContent(UsedTemplates(cards), cards));
  }

  /** On the published cards the only thing that can go wrong is a prompt drawing without
      a vector: one that is raster only is published and then refused. */
  lemma PublishedCardsBuildIff(requested: seq<CardVariant>, assets: seq<BuiltAsset>, collate: Collation,
                               sha256: string -> string, v: CardVariant)
    requires v in Published(requested, assets, collate)
    ensures PromptOf(assets, v, collate).Some?
    ensures PromptOf(assets, v, collate).value in assets && AsksWith(PromptOf(assets, v, collate).value, v)
    ensures BuildCard(assets, v, collate, sha256).Err?
       <==> NoneIsVector(PromptOf(assets, v, collate).value.representations)
  {
    SplitIsExact(requested, assets, collate);
    var own := AssetsOf(assets, v.entityKey);
    var order := By(AssetKeyOf, collate);
    var a :| a in assets && AsksWith(a, v);
    assert a in own;
    SortMembers(own, order);
    PromptAssetFound(Sort(own, order), v.templateCode);
    VectorMeaning(PromptOf(assets, v, collate).value.representations);
  }

  /** Sorting by key makes a card independent of the order the assets came in. */
  lemma CardsIgnoreAssetOrder(assets: seq<BuiltAsset>, other: seq<BuiltAsset>, v: CardVariant, collate: Collation,
                              sha256: string -> string)
    requires TotalPreorder(collate) && Antisymmetric(collate)
    requires KeysDiffer(assets, AssetKeyOf) && multiset(other) == multiset(assets)
    ensures BuildCard(other, v, collate, sha256) == BuildCard(assets, v, collate, sha256)
  {
    SameMembers(assets, other);
    PermutationKeepsKeysDifferent(assets, other, AssetKeyOf);
    KeptKeysDiffer(assets, (a: BuiltAsset) => a.entityKey == v.entityKey, AssetKeyOf);
    KeptKeysDiffer(other, (a: BuiltAsset) => a.entityKey == v.entityKey, AssetKeyOf);
    SameMembersSameSort(AssetsOf(other, v.entityKey), AssetsOf(assets, v.entityKey), AssetKeyOf, collate);
  }

  lemma {:induction false} KeptKeysDiffer<T(!new), K>(s: seq<T>, keep: T -> bool, key: T -> K)
    requires KeysDiffer(s, key)
    ensures KeysDiffer(Filter(s, keep), key)
  {
    if s != [] {
      KeptKeysDiffer(s[1..], keep, key);
      forall x | x in Filter(s[1..], keep) ensures key(x) != key(s[0]) {
        var i :| 0 <= i < |s[1..]| && s[1..][i] == x;
        assert s[i + 1] == x;
      }
    }
  }

  ghost predicate AllVectors(assets: seq<BuiltAsset>) {
    forall a, v :: a in assets && AsksWith(a, v) ==> !NoneIsVector(a.representations)
  }

  /** So with a vector for every prompt drawing the build goes through, one card to every
      published variant, and it emits exactly the templates some card uses. */
  method BuildPublished(requested: seq<CardVariant>, assets: seq<BuiltAsset>, collate: Collation,
                        sha256: string -> string)
    returns (r: Result<LearningContent, LearningError>)
    ensures AllVectors(assets) ==> r.Ok?
    ensures r.Err? ==> r.error.NoVector?
    ensures r.Ok? ==>
              && |r.value.cards| == |Published(requested, assets, collate)|
              && (forall i :: 0 <= i < |r.value.cards| ==>
                    r.value.cards[i].variant == Published(requested, assets, collate)[i])
              && r.value.templates == Taught(Published(requested, assets, collate))
  {
    var published, missing := ResolveCardVariants(requested, assets, collate);
    r := BuildLearningContent(published, assets, collate, sha256);
    forall v | v in published
      ensures BuildCard(assets, v, collate, sha256).Err? ==> BuildCard(assets, v, collate, sha256).error.NoVector?
      ensures AllVectors(assets) ==> BuildCard(assets, v, collate, sha256).Ok?
    {
      PublishedCardsBuildIff(requested, assets, collate, sha256, v);
    }
    if r.Ok? {
      TemplatesUsed(published, r.value.cards);
    }
  }

  ghost predicate TaughtBy(variants: seq<CardVariant>, code: string) {
    exists v :: v in variants && v.templateCode == code
  }

  /** The templates some variant uses, flags first. */
  ghost function Taught(variants: seq<CardVariant>): seq<string> {
    (if TaughtBy(variants, "FLAG_TO_COUNTRY") then ["FLAG_TO_COUNTRY"] else [])
    + (if TaughtBy(variants, "COAT_OF_ARMS_TO_COUNTRY") then ["COAT_OF_ARMS_TO_COUNTRY"] else [])
  }

  lemma UsedIffTaught(variants: seq<CardVariant>, cards: seq<Card>, code: string)
    requires |cards| == |variants| && forall i :: 0 <= i < |cards| ==> cards[i].variant == variants[i]
    ensures UsedBy(cards)(code) <==> TaughtBy(variants, code)
  {
    if c :| c in cards && c.variant.templateCode == code {
      var i :| 0 <= i < |cards| && cards[i] == c;
      assert variants[i] in variants;
    }
    if v :| v in variants && v.templateCode == code {
      var i :| 0 <= i < |variants| && variants[i] == v;
      assert cards[i] in cards;
    }
  }

  lemma TemplatesUsed(variants: seq<CardVariant>, cards: seq<Card>)
    requires |cards| == |variants| && forall i :: 0 <= i < |cards| ==> cards[i].variant == variants[i]
    ensures UsedTemplates(cards) == Taught(variants)
  {
    UsedIffTaught(variants, cards, FLAG_TEMPLATE_CODE);
    UsedIffTaught(variants, cards, COAT_TEMPLATE_CODE);
    FilterConcat([FLAG_TEMPLATE_CODE], [COAT_TEMPLATE_CODE], UsedBy(cards));
    assert TEMPLATES == [FLAG_TEMPLATE_CODE] + [COAT_TEMPLATE_CODE];
    assert [FLAG_TEMPLATE_CODE][1..] == [] && [COAT_TEMPLATE_CODE][1..] == [];
  }

  // ---- Requests that are not honoured --------------------------------------------------------------------

  /** Of two different requests with one key the second is neither published nor missing. */
  lemma SharedKeyIsLost(v: CardVariant, w: CardVariant, assets: seq<BuiltAsset>, collate: Collation)
    requires v != w && VariantKey(v) == VariantKey(w)
    ensures w !in Published([v, w], assets, collate) && w !in Missing([v, w], assets, collate)
  {
    SplitIsExact([v, w], assets, collate);
    OnlyTheFirst(v, w);
  }

  lemma OnlyTheFirst(v: CardVariant, w: CardVariant)
    requires VariantKey(v) == VariantKey(w)
    ensures FirstOfEach([v, w], VariantKey) == [v]
  {
    assert [v, w] == [v] + [w] && [v] == [] + [v];
    FirstOfEachStep([], v, VariantKey);
    FirstOfEachStep([v], w, VariantKey);
    assert VariantKey([v][0]) == VariantKey(w);
  }

  /** Template `b:c` of entity `a` and template `c` of entity `a:b` share a key. */
  lemma ColonsShareAKey(version: nat)
    ensures VariantKey(CardVariant("a", "b:c", version)) == VariantKey(CardVariant("a:b", "c", version))
  {
    var n := Decimal(version);
    assert "a" + [':'] + ("b:c" + [':'] + n) == "a:b" + [':'] + ("c" + [':'] + n);
  }

  /** A flag that is only a raster: its card is published and cannot be built. */
  lemma RasterOnlyIsRefused(collate: Collation, sha256: string -> string)
    ensures var v := CardVariant("a", FLAG_TEMPLATE_CODE, 1);
      var flag := BuiltAsset("k", "a", FlagDrawing, DEFAULT_ASSET_VARIANT, [Representation("image/png", "0")]);
      && v in Published([v], [flag], collate)
      && BuildCard([flag], v, collate, sha256) == Err(NoVector("k"))
  {
    var v := CardVariant("a", FLAG_TEMPLATE_CODE, 1);
    var flag := BuiltAsset("k", "a", FlagDrawing, DEFAULT_ASSET_VARIANT, [Representation("image/png", "0")]);
    assert flag in [flag] && Prompts(flag, v.templateCode);
    SplitIsExact([v], [flag], collate);
    assert [v] == [] + [v];
    FirstOfEachStep([], v, VariantKey);
    PublishedCardsBuildIff([v], [flag], collate, sha256, v);
    assert PromptOf([flag], v, collate).value == flag;
    assert flag.representations[1..] == [] && Vector(flag.representations).None?;
  }
}
