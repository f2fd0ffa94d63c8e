/** From decks to cards: what each deck asks for, what the release can publish of it, and
    the learning cards that teach it. */
module Decks {
  import opened Types
  import opened Sorting
  import opened EditorialSchema
  import opened Learning
  import Taxonomy

  datatype Pools = Pools(allCurrent: seq<string>, learnable: seq<string>)

  type Relations = seq<Taxonomy.Relation>

  /** Who a deck holds: the listed pool, its own list in member order, or what its taxonomy
      node contains. */
  ghost predicate Holds(deck: Deck, pools: Pools, relations: Relations, members: seq<CardRef>) {
    match deck.members
    case AllCurrent => members == Bares(pools.allCurrent)
    case Listed(refs) => members == Sort(refs, MemberLeq)
    case TaxonomyNode(root) =>
      exists keys :: members == Bares(keys) && Sorted(keys, TextLeq) && Distinct(keys) && keys != []
        && forall k :: k in keys <==> Taxonomy.Belongs(relations, root, pools.learnable, k)
  }

  ghost predicate NothingBelongs(deck: Deck, pools: Pools, relations: Relations) {
    deck.members.TaxonomyNode? && !exists k :: Taxonomy.Belongs(relations, deck.members.root, pools.learnable, k)
  }

  method DeckMembers(deck: Deck, pools: Pools, relations: Relations)
    returns (r: Result<seq<CardRef>, Taxonomy.DeckError>)
    ensures r.Ok? ==> Holds(deck, pools, relations, r.value)
    ensures r.Err? <==> NothingBelongs(deck, pools, relations)
  {
    match deck.members
    case AllCurrent => return Ok(Bares(pools.allCurrent));
    case Listed(refs) => return Ok(Sort(refs, MemberLeq));
    case TaxonomyNode(root) =>
      var keys := Taxonomy.DeckMembers(root, pools.learnable, relations);
      if keys.Err? {
        Taxonomy.MembersNeedChildren(relations, root, pools.learnable);
        match keys.error {
          case ContainsNothing => assert keys == Err(Taxonomy.ContainsNothing);
          case HoldsNothing => assert keys == Err(Taxonomy.HoldsNothing);
        }
        return Err(keys.error);
      }
      assert keys.value[0] in keys.value;
      return Ok(Bares(keys.value));
  }

  function Requests(deck: Deck, members: seq<CardRef>): seq<CardVariant> {
    seq(|members|, i requires 0 <= i < |members| => CardVariantRef(deck, members[i]))
  }

  /** Member for member, the cards they stand for. */
  ghost predicate Cards(deck: Deck, members: seq<CardRef>, cards: seq<CardVariant>) {
    |cards| == |members| && forall i :: 0 <= i < |members| ==> cards[i] == CardVariantRef(deck, members[i])
  }

  /** What a deck asks for. */
  ghost predicate Asks(deck: Deck, pools: Pools, relations: Relations, requested: seq<CardVariant>) {
    exists members :: Holds(deck, pools, relations, members) && Cards(deck, members, requested)
  }

  /** Of the first `n` decks, `j` is the last with this key. */
  ghost predicate LastWith(decks: seq<Deck>, n: int, key: string, j: int) {
    0 <= j < n <= |decks| && decks[j].key == key && forall m :: j < m < n ==> decks[m].key != key
  }

  /** What the decks with this key ask for: the last of them decides. */
  ghost predicate AskedUnder(decks: seq<Deck>, n: int, pools: Pools, relations: Relations, key: string,
                             requested: seq<CardVariant>) {
    exists j :: LastWith(decks, n, key, j) && Asks(decks[j], pools, relations, requested)
  }

  datatype ReleaseError = BadDeck(deck: string, error: Taxonomy.DeckError) | BadCards(reason: LearningError)

  /** `requested` and `memberCards` run parallel to the decks; decks with one key share a
      request. */
  datatype ReleaseCards = ReleaseCards(
    requested: seq<seq<CardVariant>>, memberCards: seq<seq<CardVariant>>, missing: seq<CardVariant>,
    content: LearningContent)

  function CardsFor(cards: seq<Card>, v: CardVariant): seq<Card> {
    Filter(cards, (c: Card) => c.variant == v)
  }

  /** The flag of a learnable entity, or what some deck asks for. */
  ghost predicate AskedFor(pools: Pools, r: ReleaseCards, v: CardVariant) {
    || (v.entityKey in pools.learnable && v == CardVariant(v.entityKey, "FLAG_TO_COUNTRY", 1))
    || exists i :: 0 <= i < |r.requested| && v in r.requested[i]
  }

  /** A card that is asked for has exactly one learning card if it is drawn, and is reported
      missing if it is not. */
  ghost predicate Answered(assets: seq<BuiltAsset>, r: ReleaseCards, v: CardVariant) {
    if Drawn(assets, v) then |CardsFor(r.content.cards, v)| == 1 else v in r.missing
  }

  /** Decks and learning cards agree: each deck holds what is asked for under its key, in
      order, minus what is not drawn; the decks' cards and the flags of the learnable entities are
      answered; and nothing else is built or reported. */
  ghost predicate Agree(decks: seq<Deck>, pools: Pools, relations: Relations, assets: seq<BuiltAsset>,
                        r: ReleaseCards) {
    && |r.requested| == |decks| == |r.memberCards|
    && (forall i :: 0 <= i < |decks| ==>
          AskedUnder(decks, |decks|, pools, relations, decks[i].key, r.requested[i]))
    && (Faithful(Pool(pools.learnable, r.requested)) ==>
          && (forall i :: 0 <= i < |decks| ==> Served(assets, r, i))
          && (forall v :: AskedFor(pools, r, v) ==> Answered(assets, r, v)))
    && (forall card :: card in r.content.cards ==> AskedFor(pools, r, card.variant))
    && (forall v :: v in r.missing ==> AskedFor(pools, r, v))
  }

  ghost predicate Served(assets: seq<BuiltAsset>, r: ReleaseCards, i: int)
    requires 0 <= i < |r.requested| == |r.memberCards|
  {
    && r.memberCards[i] == Filter(r.requested[i], Resolved(assets))
    && (forall v :: v in r.memberCards[i] <==> v in r.requested[i] && Drawn(assets, v))
  }

  type RequestsByDeck = map<string, seq<CardVariant>>

  /** The Map after `n` decks: its keys in insertion order, and the request under each. */
  ghost predicate Gathered(decks: seq<Deck>, n: int, pools: Pools, relations: Relations,
                           byDeck: RequestsByDeck, keys: seq<string>) {
    && 0 <= n <= |decks|
    && (forall i :: 0 <= i < n ==> decks[i].key in byDeck)
    && (forall k :: k in byDeck <==> k in keys)
    && AllAsked(decks, n, pools, relations, byDeck)
  }

  ghost predicate AllAsked(decks: seq<Deck>, n: int, pools: Pools, relations: Relations, byDeck: RequestsByDeck) {
    forall k :: k in byDeck ==> AskedUnder(decks, n, pools, relations, k, byDeck[k])
  }

  lemma AllAskedOneMore(decks: seq<Deck>, n: nat, pools: Pools, relations: Relations, byDeck: RequestsByDeck,
                        requests: seq<CardVariant>)
    requires n < |decks| && AllAsked(decks, n, pools, relations, byDeck)
    requires Asks(decks[n], pools, relations, requests)
    ensures AllAsked(decks, n + 1, pools, relations, byDeck[decks[n].key := requests])
  {
    var after := byDeck[decks[n].key := requests];
    forall k | k in after ensures AskedUnder(decks, n + 1, pools, relations, k, after[k]) {
      AskedOneMore(decks, n, pools, relations, k, after[k]);
    }
  }

  lemma GatheredOneMore(decks: seq<Deck>, n: nat, pools: Pools, relations: Relations, byDeck: RequestsByDeck,
                        keys: seq<string>, requests: seq<CardVariant>)
    requires n < |decks| && Gathered(decks, n, pools, relations, byDeck, keys)
    requires Asks(decks[n], pools, relations, requests)
    ensures Gathered(decks, n + 1, pools, relations, byDeck[decks[n].key := requests],
                     if decks[n].key in byDeck then keys else keys + [decks[n].key])
  {
    AllAskedOneMore(decks, n, pools, relations, byDeck, requests);
  }

  method RequestCards(decks: seq<Deck>, pools: Pools, relations: Relations)
    returns (r: Result<(RequestsByDeck, seq<string>), ReleaseError>)
    ensures r.Ok? ==> Gathered(decks, |decks|, pools, relations, r.value.0, r.value.1)
    ensures r.Err? ==> r.error.BadDeck?
                       && exists i :: 0 <= i < |decks| && decks[i].key == r.error.deck
                                      && NothingBelongs(decks[i], pools, relations)
  {
    var byDeck: RequestsByDeck, keys: seq<string> := map[], [];
    for n := 0 to |decks|
      invariant Gathered(decks, n, pools, relations, byDeck, keys)
    {
      var members := DeckMembers(decks[n], pools, relations);
      if members.Err? {
        return Err(BadDeck(decks[n].key, members.error));
      }
      var key, requests := decks[n].key, Requests(decks[n], members.value);
      GatheredOneMore(decks, n, pools, relations, byDeck, keys, requests);
      if key !in byDeck { keys := keys + [key]; }
      byDeck := byDeck[key := requests];
    }
    return Ok((byDeck, keys));
  }

  method AssembleCards(decks: seq<Deck>, pools: Pools, relations: Relations, assets: seq<BuiltAsset>,
                       collate: Collation, sha256: string -> string)
    returns (r: Result<ReleaseCards, ReleaseError>)
    ensures r.Ok? ==> Agree(decks, pools, relations, assets, r.value)
    ensures r.Err? && r.error.BadCards? ==> r.error.reason.NoVector? && !AllVectors(assets)
    ensures r.Err? && r.error.BadDeck? ==>
              exists i :: 0 <= i < |decks| && decks[i].key == r.error.deck && NothingBelongs(decks[i], pools, relations)
  {
    var gathered := RequestCards(decks, pools, relations);
    if gathered.Err? {
      return Err(gathered.error);
    }
    var (byDeck, keys) := gathered.value;
    var requested := seq(|decks|, i requires 0 <= i < |decks| => byDeck[decks[i].key]);
    var requests := seq(|keys|, i requires 0 <= i < |keys| => byDeck[keys[i]]);
    var pool := Pool(pools.learnable, requests);
    var published, missing := ResolveCardVariants(pool, assets, collate);
    var publishedKeys := KeysOf(published);
    var memberCards := seq(|requested|, i requires 0 <= i < |requested| => MemberCards(requested[i], publishedKeys));
    var content := BuildPublished(pool, assets, collate, sha256);
    if content.Err? {
      return Err(BadCards(content.error));
    }
    var release := ReleaseCards(requested, memberCards, missing, content.value);
    ReleaseAgrees(decks, pools, relations, assets, collate, byDeck, keys, requests, release);
    return Ok(release);
  }

  lemma {:induction false} ReleaseAgrees(decks: seq<Deck>, pools: Pools, relations: Relations, assets: seq<BuiltAsset>,
                                         collate: Collation, byDeck: RequestsByDeck, keys: seq<string>,
                                         requests: seq<seq<CardVariant>>, r: ReleaseCards)
    requires Gathered(decks, |decks|, pools, relations, byDeck, keys)
    requires |r.requested| == |decks| && forall i :: 0 <= i < |decks| ==> r.requested[i] == byDeck[decks[i].key]
    requires |requests| == |keys| && forall m :: 0 <= m < |keys| ==> requests[m] == byDeck[keys[m]]
    requires ComesFrom(pools, requests, assets, collate, r) && |r.memberCards| == |decks|
    requires var published := KeysOf(Published(Pool(pools.learnable, requests), assets, collate));
      forall i :: 0 <= i < |decks| ==> r.memberCards[i] == MemberCards(r.requested[i], published)
    ensures Agree(decks, pools, relations, assets, r)
  {
    RequestsShared(decks, pools, relations, byDeck, keys, r.requested, requests);
    OnlyWhatIsAskedFor(pools, requests, assets, collate, r);
    if Faithful(Pool(pools.learnable, r.requested)) {
      PoolWithin(pools.learnable, requests, r.requested);
      AllServed(pools, requests, assets, collate, r);
      EveryoneAnswered(pools, requests, assets, collate, r);
    }
  }

  lemma AllServed(pools: Pools, requests: seq<seq<CardVariant>>, assets: seq<BuiltAsset>, collate: Collation,
                  r: ReleaseCards)
    requires forall i :: 0 <= i < |r.requested| ==> r.requested[i] in requests
    requires Faithful(Pool(pools.learnable, requests)) && |r.memberCards| == |r.requested|
    requires var keys := KeysOf(Published(Pool(pools.learnable, requests), assets, collate));
      forall i :: 0 <= i < |r.requested| ==> r.memberCards[i] == MemberCards(r.requested[i], keys)
    ensures forall i :: 0 <= i < |r.requested| ==> Served(assets, r, i)
  {
    forall i | 0 <= i < |r.requested| ensures Served(assets, r, i) {
      var m :| 0 <= m < |requests| && requests[m] == r.requested[i];
      DeckServed(pools.learnable, requests, m, assets, collate);
    }
  }

  /** What goes into the pool is what is asked for. */
  lemma PoolIsAskedFor(pools: Pools, requests: seq<seq<CardVariant>>, r: ReleaseCards, v: CardVariant)
    requires forall m :: 0 <= m < |requests| ==> requests[m] in r.requested
    requires forall i :: 0 <= i < |r.requested| ==> r.requested[i] in requests
    ensures v in Pool(pools.learnable, requests) <==> AskedFor(pools, r, v)
  {
    FlattenMeaning(requests, v);
    FlagsMeaning(pools.learnable, v);
    if m :| 0 <= m < |requests| && v in requests[m] {
      var i :| 0 <= i < |r.requested| && r.requested[i] == requests[m];
    }
    if i :| 0 <= i < |r.requested| && v in r.requested[i] {
      var m :| 0 <= m < |requests| && requests[m] == r.requested[i];
    }
  }

  lemma FlagsMeaning(learnable: seq<string>, v: CardVariant)
    ensures v in Flags(learnable) <==> v.entityKey in learnable && v == CardVariant(v.entityKey, "FLAG_TO_COUNTRY", 1)
  {
    if v.entityKey in learnable && v == CardVariant(v.entityKey, "FLAG_TO_COUNTRY", 1) {
      var i :| 0 <= i < |learnable| && learnable[i] == v.entityKey;
      assert Flags(learnable)[i] == v;
    }
  }

  /** The cards are those of the published variants, and the missing ones are what is missing. */
  ghost predicate ComesFrom(pools: Pools, requests: seq<seq<CardVariant>>, assets: seq<BuiltAsset>, collate: Collation,
                            r: ReleaseCards) {
    var pool := Pool(pools.learnable, requests);
    && |r.content.cards| == |Published(pool, assets, collate)|
    && (forall j :: 0 <= j < |r.content.cards| ==> r.content.cards[j].variant == Published(pool, assets, collate)[j])
    && r.missing == Missing(pool, assets, collate)
  }

  lemma OnlyWhatIsAskedFor(pools: Pools, requests: seq<seq<CardVariant>>, assets: seq<BuiltAsset>, collate: Collation,
                           r: ReleaseCards)
    requires forall m :: 0 <= m < |requests| ==> requests[m] in r.requested
    requires forall i :: 0 <= i < |r.requested| ==> r.requested[i] in requests
    requires ComesFrom(pools, requests, assets, collate, r)
    ensures forall card :: card in r.content.cards ==> AskedFor(pools, r, card.variant)
    ensures forall v :: v in r.missing ==> AskedFor(pools, r, v)
  {
    var pool := Pool(pools.learnable, requests);
    SplitIsExact(pool, assets, collate);
    FirstOfEachMeaning(pool, VariantKey);
    forall v | v in pool ensures AskedFor(pools, r, v) { PoolIsAskedFor(pools, requests, r, v); }
    forall card | card in r.content.cards ensures card.variant in Published(pool, assets, collate) {
      var j :| 0 <= j < |r.content.cards| && r.content.cards[j] == card;
    }
  }

  lemma EveryoneAnswered(pools: Pools, requests: seq<seq<CardVariant>>, assets: seq<BuiltAsset>, collate: Collation,
                         r: ReleaseCards)
    requires forall m :: 0 <= m < |requests| ==> requests[m] in r.requested
    requires forall i :: 0 <= i < |r.requested| ==> r.requested[i] in requests
    requires ComesFrom(pools, requests, assets, collate, r) && Faithful(Pool(pools.learnable, requests))
    ensures forall v :: AskedFor(pools, r, v) ==> Answered(assets, r, v)
  {
    var pool := Pool(pools.learnable, requests);
    RequestsHonouredIff(pool, assets, collate);
    PublishedOnce(pool, assets, collate);
    forall v | AskedFor(pools, r, v) ensures Answered(assets, r, v) {
      PoolIsAskedFor(pools, requests, r, v);
      CardsCounted(r.content.cards, Published(pool, assets, collate), v);
    }
  }

  /** The values of the Map are what its decks ask for. */
  lemma RequestsShared(decks: seq<Deck>, pools: Pools, relations: Relations, byDeck: RequestsByDeck, keys: seq<string>,
                       requested: seq<seq<CardVariant>>, requests: seq<seq<CardVariant>>)
    requires Gathered(decks, |decks|, pools, relations, byDeck, keys)
    requires |requested| == |decks| && forall i :: 0 <= i < |decks| ==> requested[i] == byDeck[decks[i].key]
    requires |requests| == |keys| && forall m :: 0 <= m < |keys| ==> requests[m] == byDeck[keys[m]]
    ensures forall m :: 0 <= m < |requests| ==> requests[m] in requested
    ensures forall i :: 0 <= i < |requested| ==> requested[i] in requests
  {
    forall m | 0 <= m < |requests| ensures requests[m] in requested {
      var j :| LastWith(decks, |decks|, keys[m], j) && Asks(decks[j], pools, relations, byDeck[keys[m]]);
      assert requested[j] == requests[m];
    }
    forall i | 0 <= i < |requested| ensures requested[i] in requests {
      var m :| 0 <= m < |keys| && keys[m] == decks[i].key;
      assert requests[m] == requested[i];
    }
  }

  lemma AskedOneMore(decks: seq<Deck>, n: nat, pools: Pools, relations: Relations, key: string,
                     requested: seq<CardVariant>)
    requires n < |decks|
    requires if decks[n].key == key then Asks(decks[n], pools, relations, requested)
             else AskedUnder(decks, n, pools, relations, key, requested)
    ensures AskedUnder(decks, n + 1, pools, relations, key, requested)
  {
    if decks[n].key == key {
      assert LastWith(decks, n + 1, key, n);
    } else {
      var j :| LastWith(decks, n, key, j) && Asks(decks[j], pools, relations, requested);
      assert LastWith(decks, n + 1, key, j);
    }
  }

  lemma {:induction false} FlattenMeaning(decks: seq<seq<CardVariant>>, v: CardVariant)
    ensures v in Flatten(decks) <==> exists i :: 0 <= i < |decks| && v in decks[i]
  {
    if decks != [] {
      FlattenMeaning(decks[1..], v);
      if i :| 0 <= i < |decks| && v in decks[i] {
        if i > 0 { assert v in decks[1..][i - 1]; }
      }
    }
  }

  /** A pool of some of the requests is as faithful as the pool of all. */
  lemma PoolWithin(learnable: seq<string>, some: seq<seq<CardVariant>>, all: seq<seq<CardVariant>>)
    requires forall m :: 0 <= m < |some| ==> some[m] in all
    requires Faithful(Pool(learnable, all))
    ensures Faithful(Pool(learnable, some))
  {
    forall v | v in Pool(learnable, some) ensures v in Pool(learnable, all) {
      FlattenMeaning(some, v);
      FlattenMeaning(all, v);
      if v in Flatten(some) {
        var i :| 0 <= i < |some| && v in some[i];
        var j :| 0 <= j < |all| && all[j] == some[i];
      }
    }
  }

  lemma DeckServed(learnable: seq<string>, requested: seq<seq<CardVariant>>, i: nat, assets: seq<BuiltAsset>,
                   collate: Collation)
    requires i < |requested| && Faithful(Pool(learnable, requested))
    ensures var members := MemberCards(requested[i], KeysOf(Published(Pool(learnable, requested), assets, collate)));
      && members == Filter(requested[i], Resolved(assets))
      && forall v :: v in members <==> v in requested[i] && Drawn(assets, v)
  {
    DeckHoldsItsRequest(learnable, requested, i, assets, collate);
  }

  lemma {:induction false} CardsCounted(cards: seq<Card>, variants: seq<CardVariant>, v: CardVariant)
    requires |cards| == |variants| && forall j :: 0 <= j < |cards| ==> cards[j].variant == variants[j]
    ensures |CardsFor(cards, v)| == multiset(variants)[v]
  {
    if cards != [] {
      CardsCounted(cards[1..], variants[1..], v);
      assert variants == [variants[0]] + variants[1..];
    }
  }
}
