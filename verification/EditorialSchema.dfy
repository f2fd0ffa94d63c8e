/** The lift of an editorial catalog from version 2 to version 3, the card a deck member
    stands for, and the order of an explicit member list. */
module EditorialSchema {
  import opened Types
  import opened Sorting

  const EDITORIAL_SCHEMA_VERSION: int := 3
  const DEFAULT_TEMPLATE_CODE: string := "FLAG_TO_COUNTRY"
  const DEFAULT_TEMPLATE_SCHEMA_VERSION: nat := 1
  const DEFAULT_ASSET_VARIANT: string := "current"

  datatype CardVariant = CardVariant(entityKey: string, templateCode: string, templateSchemaVersion: nat)

  datatype CardRef = Bare(key: string) | Explicit(card: CardVariant)

  datatype Members = AllCurrent | Listed(refs: seq<CardRef>) | TaxonomyNode(root: string)

  /** A deck of either version; `other` is every field the lift does not touch. */
  datatype Deck = Deck(
    key: string, members: Members, defaultTemplateCode: Option<string>,
    defaultTemplateSchemaVersion: Option<nat>, other: Json)

  datatype AssetOverride = AssetOverride(variant: Option<string>, other: Json)

  datatype Catalog = Catalog(
    schemaVersion: int, decks: seq<Deck>, assetOverrides: Option<seq<AssetOverride>>, other: Json)

  datatype SchemaError = UnknownVersion(version: int)

  function LiftDeck(deck: Deck): Deck {
    deck.(defaultTemplateCode := Some(DEFAULT_TEMPLATE_CODE),
          defaultTemplateSchemaVersion := Some(DEFAULT_TEMPLATE_SCHEMA_VERSION))
  }

  function LiftOverride(o: AssetOverride): AssetOverride {
    o.(variant := Some(DEFAULT_ASSET_VARIANT))
  }

  function Migrate(doc: Catalog): Result<Catalog, SchemaError> {
    if doc.schemaVersion == EDITORIAL_SCHEMA_VERSION then Ok(doc)
    else if doc.schemaVersion != 2 then Err(UnknownVersion(doc.schemaVersion))
    else Ok(doc.(
      schemaVersion := EDITORIAL_SCHEMA_VERSION,
      decks := seq(|doc.decks|, i requires 0 <= i < |doc.decks| => LiftDeck(doc.decks[i])),
      assetOverrides := match doc.assetOverrides
        case None => None
        case Some(os) => Some(seq(|os|, i requires 0 <= i < |os| => LiftOverride(os[i])))))
  }

  /** The card a member stands for: a bare key takes the deck's default. */
  function CardVariantRef(deck: Deck, member: CardRef): CardVariant {
    match member
    case Explicit(card) => card
    case Bare(key) => CardVariant(
      key,
      if deck.defaultTemplateCode.Some? then deck.defaultTemplateCode.value else DEFAULT_TEMPLATE_CODE,
      if deck.defaultTemplateSchemaVersion.Some? then deck.defaultTemplateSchemaVersion.value
      else DEFAULT_TEMPLATE_SCHEMA_VERSION)
  }

  /** The lift is one-way and settles at once: what it returns it leaves alone, and it
      fails exactly on the versions nobody wrote it for. */
  lemma MigrateIdempotent(doc: Catalog)
    ensures Migrate(doc).Err? <==> doc.schemaVersion !in {2, EDITORIAL_SCHEMA_VERSION}
    ensures Migrate(doc).Ok? ==> Migrate(Migrate(doc).value) == Migrate(doc)
  {
  }

  ghost predicate TeachesFlags(deck: Deck) {
    && deck.defaultTemplateCode in {None, Some(DEFAULT_TEMPLATE_CODE)}
    && deck.defaultTemplateSchemaVersion in {None, Some(DEFAULT_TEMPLATE_SCHEMA_VERSION)}
  }

  /** Lifting keeps what every member of a deck teaches exactly when the deck declares no
      default but the flag template, which is what a version 2 deck cannot do otherwise. */
  lemma LiftKeepsMeaningIff(deck: Deck)
    ensures (forall m: CardRef :: CardVariantRef(LiftDeck(deck), m) == CardVariantRef(deck, m)) <==> TeachesFlags(deck)
    ensures forall key :: CardVariantRef(LiftDeck(deck), Bare(key)) == CardVariant(key, "FLAG_TO_COUNTRY", 1)
    ensures LiftDeck(deck).members == deck.members && LiftDeck(deck).key == deck.key
    ensures LiftDeck(deck).other == deck.other
    ensures forall card :: CardVariantRef(deck, Explicit(card)) == card
  {
    if !TeachesFlags(deck) {
      assert CardVariantRef(LiftDeck(deck), Bare("")) != CardVariantRef(deck, Bare(""));
    }
  }

  ghost predicate KeepsMeaning(before: Catalog, after: Catalog) {
    && |after.decks| == |before.decks|
    && forall i, m :: 0 <= i < |before.decks| ==>
         CardVariantRef(after.decks[i], m) == CardVariantRef(before.decks[i], m)
  }

  /** A version 2 catalog in version 3: the same decks, all teaching flags, and the same
      overrides, all of the current drawing. */
  ghost predicate Lifted(before: Catalog, after: Catalog) {
    && after.schemaVersion == 3 && after.other == before.other
    && |after.decks| == |before.decks|
    && (forall i :: 0 <= i < |before.decks| ==>
          && after.decks[i].key == before.decks[i].key && after.decks[i].members == before.decks[i].members
          && after.decks[i].defaultTemplateCode == Some("FLAG_TO_COUNTRY")
          && after.decks[i].defaultTemplateSchemaVersion == Some(1) && after.decks[i].other == before.decks[i].other)
    && (after.assetOverrides.None? <==> before.assetOverrides.None?)
    && (before.assetOverrides.Some? ==>
          var new_, old_ := after.assetOverrides.value, before.assetOverrides.value;
          |new_| == |old_| && forall i :: 0 <= i < |old_| ==>
            new_[i].variant == Some("current") && new_[i].other == old_[i].other)
  }

  /** A catalog is read as it is if current and lifted from version 2. It keeps what every member
      of every deck teaches exactly when it is current or none of its decks declares anything but
      the flag template. */
  lemma MigrateKeepsMeaningIff(doc: Catalog)
    requires Migrate(doc).Ok?
    ensures if doc.schemaVersion == 3 then Migrate(doc).value == doc else Lifted(doc, Migrate(doc).value)
    ensures KeepsMeaning(doc, Migrate(doc).value)
       <==> doc.schemaVersion == EDITORIAL_SCHEMA_VERSION || forall deck :: deck in doc.decks ==> TeachesFlags(deck)
  {
    forall deck: Deck
      ensures (forall m: CardRef :: CardVariantRef(LiftDeck(deck), m) == CardVariantRef(deck, m))
         <==> TeachesFlags(deck)
    {
      LiftKeepsMeaningIff(deck);
    }
    var after := Migrate(doc).value;
    if KeepsMeaning(doc, after) && doc.schemaVersion != EDITORIAL_SCHEMA_VERSION {
      forall deck | deck in doc.decks ensures TeachesFlags(deck) {
        var i :| 0 <= i < |doc.decks| && doc.decks[i] == deck;
        assert after.decks[i] == LiftDeck(deck);
        assert forall m: CardRef :: CardVariantRef(after.decks[i], m) == CardVariantRef(doc.decks[i], m);
      }
    }
  }

  // ---- The order of an explicit list -----------------------------------------------------

  const NUL: char := '\0'

  function EntityOf(member: CardRef): string {
    match member case Bare(key) => key case Explicit(card) => card.entityKey
  }

  /** The template of a member, the empty string for a bare key. */
  function TemplateOf(member: CardRef): string {
    match member case Bare(_) => "" case Explicit(card) => card.templateCode
  }

  function MemberSortKey(member: CardRef): string {
    EntityOf(member) + [NUL] + TemplateOf(member)
  }

  predicate MemberLeq(l: CardRef, r: CardRef) {
    TextLeq(MemberSortKey(l), MemberSortKey(r))
  }

  lemma {:induction false} JoinedOrder(k: string, t: string, l: string, u: string)
    requires NUL !in k && NUL !in l
    ensures TextLeq(k + [NUL] + t, l + [NUL] + u) <==> if k == l then TextLeq(t, u) else TextLeq(k, l)
  {
    var left, right := k + [NUL] + t, l + [NUL] + u;
    if k == [] || l == [] {
      assert k == [] ==> left[0] == NUL && left[1..] == t;
      assert l == [] ==> right[0] == NUL && right[1..] == u;
      assert k != [] ==> left[0] == k[0] && k[0] in k;
      assert l != [] ==> right[0] == l[0] && l[0] in l;
    } else {
      assert left[1..] == k[1..] + [NUL] + t && right[1..] == l[1..] + [NUL] + u;
      JoinedOrder(k[1..], t, l[1..], u);
      assert k == [k[0]] + k[1..] && l == [l[0]] + l[1..];
    }
  }

  /** Members are ordered by entity first and by template within an entity, a bare key
      before any template. */
  lemma MemberOrderIsLexicographic(l: CardRef, r: CardRef)
    requires NUL !in EntityOf(l) && NUL !in EntityOf(r)
    ensures MemberLeq(l, r) <==>
            match (l, r)
            case (Bare(k), Bare(m)) => TextLeq(k, m)
            case (Bare(k), Explicit(d)) => TextLeq(k, d.entityKey)
            case (Explicit(c), Bare(m)) =>
              if c.entityKey == m then c.templateCode == "" else TextLeq(c.entityKey, m)
            case (Explicit(c), Explicit(d)) =>
              if c.entityKey == d.entityKey then TextLeq(c.templateCode, d.templateCode)
              else TextLeq(c.entityKey, d.entityKey)
  {
    JoinedOrder(EntityOf(l), TemplateOf(l), EntityOf(r), TemplateOf(r));
    TextLeqTotal(EntityOf(l), EntityOf(r));
  }

  function Bares(keys: seq<string>): seq<CardRef> {
    seq(|keys|, i requires 0 <= i < |keys| => Bare(keys[i]))
  }

  lemma {:induction false} InsertBare(key: string, keys: seq<string>)
    requires NUL !in key && forall k :: k in keys ==> NUL !in k
    ensures Insert(Bare(key), Bares(keys), MemberLeq) == Bares(Insert(key, keys, TextLeq))
  {
    if keys != [] {
      MemberOrderIsLexicographic(Bare(key), Bare(keys[0]));
      TextLeqTotal(key, keys[0]);
      assert Bares(keys)[1..] == Bares(keys[1..]);
      if !TextLeq(key, keys[0]) { InsertBare(key, keys[1..]); }
    }
  }

  /** So a list of bare keys keeps the plain order of its keys. */
  lemma {:induction false} BareListSortsByKey(keys: seq<string>)
    requires forall k :: k in keys ==> NUL !in k
    ensures Sort(Bares(keys), MemberLeq) == Bares(Sort(keys, TextLeq))
  {
    if keys != [] {
      BareListSortsByKey(keys[1..]);
      assert Bares(keys)[1..] == Bares(keys[1..]);
      SortMembers(keys[1..], TextLeq);
      InsertBare(keys[0], Sort(keys[1..], TextLeq));
    }
  }
}
