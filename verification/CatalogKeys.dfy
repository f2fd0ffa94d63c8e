/** Whether the keys of a refreshed catalog are distinct, told from what goes into it. */
module CatalogKeys {
  import opened Types
  import opened Sorting
  import opened Selection
  import opened Numerals

  function TaiwanOf(entities: seq<Entity>): Entity {
    Taiwan(Known(ExistingByIso(entities), TAIWAN))
  }

  function PreservedKeys(entities: seq<Entity>): set<string> {
    KeysOf(Filter(entities, Preserved))
  }

  /** What the catalog holds besides the selected entities. */
  function Carried(rules: Rules, entities: seq<Entity>, records: seq<Record>): seq<Entity> {
    [TaiwanOf(entities)] + Filter(entities, Extra(TaiwanOf(entities).key)) + rules.regions(records)
  }

  /** The key place `i` of the catalog has whatever is given to new records; None at a new
      record. Places are counted before the catalog is sorted. */
  function StatedKey(rules: Rules, entities: seq<Entity>, records: seq<Record>, i: nat): Option<string>
    requires i < |records| + |Carried(rules, entities, records)|
  {
    if i < |records| then
      match Known(ExistingByIso(entities), records[i].isoAlpha2) case None => None case Some(e) => Some(e.key)
    else Some(Carried(rules, entities, records)[i - |records|].key)
  }

  /** No two stated keys are the same. */
  ghost predicate StatedDiffer(rules: Rules, entities: seq<Entity>, records: seq<Record>) {
    forall i: nat, j: nat ::
      i < j < |records| + |Carried(rules, entities, records)| && StatedKey(rules, entities, records, i).Some? ==>
        StatedKey(rules, entities, records, i) != StatedKey(rules, entities, records, j)
  }

  /** The catalog before it is sorted. */
  function Unsorted(rules: Rules, entities: seq<Entity>, records: seq<Record>): (all: seq<Entity>)
    requires Refreshed(rules, entities, records).Ok?
    ensures |all| == |records| + |Carried(rules, entities, records)|
  {
    Selected(rules, entities, records) + Carried(rules, entities, records)
  }

  lemma SortingKeepsKeys(rules: Rules, entities: seq<Entity>, records: seq<Record>)
    requires Refreshed(rules, entities, records).Ok?
    ensures KeysDiffer(Refreshed(rules, entities, records).value, KeyOf)
       <==> KeysDiffer(Unsorted(rules, entities, records), KeyOf)
  {
    var all := Unsorted(rules, entities, records);
    assert Combined(rules, Selected(rules, entities, records), TaiwanOf(entities), entities, records) == all;
    SortKeysDifferIff(all, KeyOf, By(KeyOf, rules.collate));
  }

  lemma KeyAt(rules: Rules, entities: seq<Entity>, records: seq<Record>, i: nat)
    requires Refreshed(rules, entities, records).Ok? && i < |Unsorted(rules, entities, records)|
    ensures StatedKey(rules, entities, records, i).Some? ==>
              StatedKey(rules, entities, records, i) == Some(Unsorted(rules, entities, records)[i].key)
    ensures StatedKey(rules, entities, records, i).None? ==> i < |records| && New(entities, records[i])
  {
    if i < |records| { SelectedKey(rules, entities, records, i); }
  }

  /** A new record's key is a candidate of it, and used by nobody before. */
  lemma NewKeyAt(rules: Rules, entities: seq<Entity>, records: seq<Record>, i: nat) returns (n: nat)
    requires Refreshed(rules, entities, records).Ok? && i < |records| && New(entities, records[i])
    ensures n >= 1 && rules.classify(records[i].isoAlpha2).Some?
    ensures Unsorted(rules, entities, records)[i].key == Candidate(BaseOf(rules, records[i]), n)
    ensures Unsorted(rules, entities, records)[i].key !in PreservedKeys(entities)
    ensures forall k: nat :: 1 <= k < n ==>
              Candidate(BaseOf(rules, records[i]), k) in UsedBefore(rules, entities, records, i)
    ensures forall h :: 0 <= h < i ==>
              Unsorted(rules, entities, records)[h].key != Unsorted(rules, entities, records)[i].key
  {
    SelectedKey(rules, entities, records, i);
    var used, selected := UsedBefore(rules, entities, records, i), Selected(rules, entities, records);
    n := FreshKeyMeaning(BaseOf(rules, records[i]), used);
    assert selected[i].key !in used;
    forall h | 0 <= h < i ensures selected[h].key in used {
      assert selected[..i][h] == selected[h];
    }
  }

  // ---- Which keys new records come to, told from what goes in ------------------------------

  /** When record `i` is reached `key` is in use: a preserved entity holds it, or an earlier
      record states it or comes to it. */
  ghost predicate InUse(rules: Rules, entities: seq<Entity>, records: seq<Record>, i: nat, key: string)
    requires i <= |records|
    decreases i, 0
  {
    key in PreservedKeys(entities)
    || exists h: nat :: h < i
         && (StatedKey(rules, entities, records, h) == Some(key) || ComesTo(rules, entities, records, h, key))
  }

  /** The new record `h` gets as far as `key`: it is one of its candidates, and every smaller
      one is in use. */
  ghost predicate ComesTo(rules: Rules, entities: seq<Entity>, records: seq<Record>, h: nat, key: string)
    requires h < |records|
    decreases h, 2
  {
    New(entities, records[h]) && rules.classify(records[h].isoAlpha2).Some?
    && exists n: nat :: PushedTo(rules, entities, records, h, n, key)
  }

  ghost predicate PushedTo(rules: Rules, entities: seq<Entity>, records: seq<Record>, h: nat, n: nat, key: string)
    requires h < |records| && rules.classify(records[h].isoAlpha2).Some?
    decreases h, 1
  {
    && n >= 1 && Candidate(BaseOf(rules, records[h]), n) == key
    && forall m: nat :: 1 <= m < n ==> InUse(rules, entities, records, h, Candidate(BaseOf(rules, records[h]), m))
  }

  ghost predicate UseKnown(rules: Rules, entities: seq<Entity>, records: seq<Record>, i: nat)
    requires Refreshed(rules, entities, records).Ok? && i <= |records|
  {
    forall key :: InUse(rules, entities, records, i, key) <==> key in UsedBefore(rules, entities, records, i)
  }

  /** Coming to a key is finding it in use or being given it. */
  lemma ComesToIff(rules: Rules, entities: seq<Entity>, records: seq<Record>, h: nat, key: string)
    requires Refreshed(rules, entities, records).Ok? && h < |records| && UseKnown(rules, entities, records, h)
    requires New(entities, records[h]) && key !in UsedBefore(rules, entities, records, h)
    ensures ComesTo(rules, entities, records, h, key) <==> Unsorted(rules, entities, records)[h].key == key
  {
    var n := NewKeyAt(rules, entities, records, h);
    var base, used := BaseOf(rules, records[h]), UsedBefore(rules, entities, records, h);
    if Candidate(base, n) == key {
      assert PushedTo(rules, entities, records, h, n, key);
    }
    if m: nat :| PushedTo(rules, entities, records, h, m, key) {
      SelectedKey(rules, entities, records, h);
      FreshKeyIs(base, used, m);
    }
  }

  lemma RecordUses(rules: Rules, entities: seq<Entity>, records: seq<Record>, h: nat, key: string)
    requires Refreshed(rules, entities, records).Ok? && h < |records| && UseKnown(rules, entities, records, h)
    requires key !in UsedBefore(rules, entities, records, h)
    ensures StatedKey(rules, entities, records, h) == Some(key) || ComesTo(rules, entities, records, h, key)
       <==> Unsorted(rules, entities, records)[h].key == key
  {
    KeyAt(rules, entities, records, h);
    if New(entities, records[h]) { ComesToIff(rules, entities, records, h, key); }
  }

  lemma KeyUseKnown(rules: Rules, entities: seq<Entity>, records: seq<Record>, i: nat, key: string)
    requires Refreshed(rules, entities, records).Ok? && i < |records| && UseKnown(rules, entities, records, i)
    ensures InUse(rules, entities, records, i + 1, key) <==> key in UsedBefore(rules, entities, records, i + 1)
  {
    UsedGrows(rules, entities, records, i);
    InUseOneMore(rules, entities, records, i, key);
    if key !in UsedBefore(rules, entities, records, i) { RecordUses(rules, entities, records, i, key); }
  }

  lemma InUseOneMore(rules: Rules, entities: seq<Entity>, records: seq<Record>, i: nat, key: string)
    requires i < |records|
    ensures InUse(rules, entities, records, i + 1, key)
       <==> InUse(rules, entities, records, i, key)
            || StatedKey(rules, entities, records, i) == Some(key) || ComesTo(rules, entities, records, i, key)
  {
  }

  lemma NothingUsedYet(rules: Rules, entities: seq<Entity>, records: seq<Record>)
    requires Refreshed(rules, entities, records).Ok?
    ensures UseKnown(rules, entities, records, 0)
  {
    assert Selected(rules, entities, records)[..0] == [];
  }

  /** What is in use is what the run has used. */
  lemma {:induction false} InUseIsUsed(rules: Rules, entities: seq<Entity>, records: seq<Record>, i: nat)
    requires Refreshed(rules, entities, records).Ok? && i <= |records|
    ensures UseKnown(rules, entities, records, i)
  {
    if i == 0 {
      NothingUsedYet(rules, entities, records);
    } else {
      InUseIsUsed(rules, entities, records, i - 1);
      forall key
        ensures InUse(rules, entities, records, i, key) <==> key in UsedBefore(rules, entities, records, i)
      {
        KeyUseKnown(rules, entities, records, i - 1, key);
      }
    }
  }

  // ---- Distinct keys ---------------------------------------------------------------------

  /** Place `j` states a key that the new record `i` before it comes to, and no preserved
      entity keeps it from being taken. */
  ghost predicate Poached(rules: Rules, entities: seq<Entity>, records: seq<Record>, i: nat, j: nat) {
    && i < |records| && i < j < |records| + |Carried(rules, entities, records)|
    && StatedKey(rules, entities, records, j).Some?
    && StatedKey(rules, entities, records, j).value !in PreservedKeys(entities)
    && ComesTo(rules, entities, records, i, StatedKey(rules, entities, records, j).value)
  }

  lemma StatedRepeats(rules: Rules, entities: seq<Entity>, records: seq<Record>, i: nat, j: nat)
    requires Refreshed(rules, entities, records).Ok? && i < j < |Unsorted(rules, entities, records)|
    requires StatedKey(rules, entities, records, i).Some?
    requires StatedKey(rules, entities, records, i) == StatedKey(rules, entities, records, j)
    ensures !KeysDiffer(Refreshed(rules, entities, records).value, KeyOf)
  {
    SortingKeepsKeys(rules, entities, records);
    KeyAt(rules, entities, records, i);
    KeyAt(rules, entities, records, j);
    var all := Unsorted(rules, entities, records);
    assert KeyOf(all[i]) == KeyOf(all[j]);
  }

  /** A poached key is held twice: by the record that comes to it or one before, and where it
      is stated. */
  lemma PoachedRepeats(rules: Rules, entities: seq<Entity>, records: seq<Record>, i: nat, j: nat)
    requires Refreshed(rules, entities, records).Ok? && Poached(rules, entities, records, i, j)
    ensures !KeysDiffer(Refreshed(rules, entities, records).value, KeyOf)
  {
    SortingKeepsKeys(rules, entities, records);
    KeyAt(rules, entities, records, j);
    var all, key := Unsorted(rules, entities, records), StatedKey(rules, entities, records, j).value;
    InUseIsUsed(rules, entities, records, i);
    if key in UsedBefore(rules, entities, records, i) {
      var h :| 0 <= h < i && Selected(rules, entities, records)[..i][h].key == key;
      assert KeyOf(all[h]) == KeyOf(all[j]);
    } else {
      ComesToIff(rules, entities, records, i, key);
      assert KeyOf(all[i]) == KeyOf(all[j]);
    }
  }

  lemma PlacesDiffer(rules: Rules, entities: seq<Entity>, records: seq<Record>, i: nat, j: nat)
    requires Refreshed(rules, entities, records).Ok? && i < j < |Unsorted(rules, entities, records)|
    requires StatedDiffer(rules, entities, records) && !Poached(rules, entities, records, i, j)
    ensures Unsorted(rules, entities, records)[i].key != Unsorted(rules, entities, records)[j].key
  {
    KeyAt(rules, entities, records, i);
    KeyAt(rules, entities, records, j);
    if StatedKey(rules, entities, records, j).None? {
      var n := NewKeyAt(rules, entities, records, j);
    } else if StatedKey(rules, entities, records, i).None? {
      var key := Unsorted(rules, entities, records)[i].key;
      var n := NewKeyAt(rules, entities, records, i);
      SelectedKey(rules, entities, records, i);
      InUseIsUsed(rules, entities, records, i);
      ComesToIff(rules, entities, records, i, key);
    }
  }

  /** The keys of the refreshed catalog are distinct exactly when the stated ones are and no
      new record comes to a key that is stated after it. */
  lemma CatalogKeysDifferIff(rules: Rules, entities: seq<Entity>, records: seq<Record>)
    requires Refreshed(rules, entities, records).Ok?
    ensures KeysDiffer(Refreshed(rules, entities, records).value, KeyOf)
       <==> StatedDiffer(rules, entities, records)
            && forall i: nat, j: nat :: !Poached(rules, entities, records, i, j)
  {
    if !StatedDiffer(rules, entities, records) {
      var i: nat, j: nat :| i < j < |Unsorted(rules, entities, records)|
        && StatedKey(rules, entities, records, i).Some?
        && StatedKey(rules, entities, records, i) == StatedKey(rules, entities, records, j);
      StatedRepeats(rules, entities, records, i, j);
    } else if i: nat, j: nat :| Poached(rules, entities, records, i, j) {
      PoachedRepeats(rules, entities, records, i, j);
    } else {
      SortingKeepsKeys(rules, entities, records);
      var all := Unsorted(rules, entities, records);
      forall i, j | 0 <= i < j < |all| ensures KeyOf(all[i]) != KeyOf(all[j]) {
        PlacesDiffer(rules, entities, records, i, j);
      }
    }
  }

  /** In particular they are when no stated key is any candidate of a new record before it. */
  lemma CatalogKeysDiffer(rules: Rules, entities: seq<Entity>, records: seq<Record>)
    requires Refreshed(rules, entities, records).Ok? && StatedDiffer(rules, entities, records)
    requires forall i: nat, j: nat, n: nat :: !Contested(rules, entities, records, i, j, n)
    ensures KeysDiffer(Refreshed(rules, entities, records).value, KeyOf)
  {
    forall i: nat, j: nat ensures !Poached(rules, entities, records, i, j) {
      if Poached(rules, entities, records, i, j) {
        PoachedIsContested(rules, entities, records, i, j);
        assert false;
      }
    }
    CatalogKeysDifferIff(rules, entities, records);
  }

  lemma PoachedIsContested(rules: Rules, entities: seq<Entity>, records: seq<Record>, i: nat, j: nat)
    requires Poached(rules, entities, records, i, j)
    ensures exists n: nat :: Contested(rules, entities, records, i, j, n)
  {
    var key := StatedKey(rules, entities, records, j).value;
    assert ComesTo(rules, entities, records, i, key);
    var n: nat :| PushedTo(rules, entities, records, i, n, key);
    assert Contested(rules, entities, records, i, j, n);
  }

  /** Place `j` states the n-th candidate of the new record `i` before it, and no preserved
      entity keeps that candidate from being taken. */
  ghost predicate Contested(rules: Rules, entities: seq<Entity>, records: seq<Record>, i: nat, j: nat, n: nat) {
    && i < |records| && i < j < |records| + |Carried(rules, entities, records)| && n >= 1
    && New(entities, records[i]) && rules.classify(records[i].isoAlpha2).Some?
    && StatedKey(rules, entities, records, j) == Some(Candidate(BaseOf(rules, records[i]), n))
    && Candidate(BaseOf(rules, records[i]), n) !in PreservedKeys(entities)
  }

  // ---- Catalogs that repeat a key -----------------------------------------------------------

  /** A record for Taiwan and an entity for it: both the selected entity and the one that is
      always added hold the entity's key. */
  lemma TaiwanRecordRepeats(rules: Rules, entities: seq<Entity>, records: seq<Record>, i: nat)
    requires Refreshed(rules, entities, records).Ok?
    requires i < |records| && records[i].isoAlpha2 == TAIWAN && !New(entities, records[i])
    ensures !KeysDiffer(Refreshed(rules, entities, records).value, KeyOf)
  {
    StatedRepeats(rules, entities, records, i, |records|);
  }

  /** An entity with a code of its own whose ISO code is selected again is both rebuilt and
      carried over. */
  lemma {:induction false} CarriedAndRebuiltRepeats(rules: Rules, entities: seq<Entity>, records: seq<Record>,
                                                    i: nat, e: Entity)
    requires Refreshed(rules, entities, records).Ok? && e in entities
    requires CUSTOM in e.identifiers && e.kind !in {Region, Subregion} && e.key != TaiwanOf(entities).key
    requires i < |records| && Known(ExistingByIso(entities), records[i].isoAlpha2) == Some(e)
    ensures !KeysDiffer(Refreshed(rules, entities, records).value, KeyOf)
  {
    var j := PlaceOfExtra(rules, entities, records, e);
    StatedRepeats(rules, entities, records, i, j);
  }

  lemma {:induction false} PlaceOfExtra(rules: Rules, entities: seq<Entity>, records: seq<Record>, e: Entity)
    returns (j: nat)
    requires e in Filter(entities, Extra(TaiwanOf(entities).key))
    ensures |records| < j < |records| + |Carried(rules, entities, records)|
    ensures StatedKey(rules, entities, records, j) == Some(e.key)
  {
    var extras, carried := Filter(entities, Extra(TaiwanOf(entities).key)), Carried(rules, entities, records);
    var n :| 0 <= n < |extras| && extras[n] == e;
    assert carried[n + 1] == e;
    j := |records| + n + 1;
  }

  /** A new record takes the key of a known entity that comes later in the list. */
  lemma LaterKeyRepeats(rules: Rules, e: Entity, first: Record, second: Record)
    requires Refreshed(rules, [e], [first, second]).Ok?
    requires HasIso(e, second.isoAlpha2) && first.isoAlpha2 != second.isoAlpha2 && !Preserved(e)
    requires rules.classify(first.isoAlpha2).Some? && e.key == BaseOf(rules, first)
    ensures !KeysDiffer(Refreshed(rules, [e], [first, second]).value, KeyOf)
  {
    var records := [first, second];
    OnlyEntityKnown(e, second.isoAlpha2);
    assert PushedTo(rules, [e], records, 0, 1, e.key);
    assert Poached(rules, [e], records, 0, 1);
    PoachedRepeats(rules, [e], records, 0, 1);
  }

  lemma OnlyEntityKnown(e: Entity, iso: string)
    requires HasIso(e, iso) && !Preserved(e)
    ensures ExistingByIso([e]) == map[iso := e] && PreservedKeys([e]) == {}
  {
    assert [e][..0] == [];
    assert Filter([e], Preserved) == [];
  }

  /** Behind a new record its own name is in use. */
  lemma {:induction false} FirstNameInUse(rules: Rules, entities: seq<Entity>, records: seq<Record>)
    requires records != [] && New(entities, records[0]) && rules.classify(records[0].isoAlpha2).Some?
    ensures InUse(rules, entities, records, 1, BaseOf(rules, records[0]))
  {
    var base := BaseOf(rules, records[0]);
    assert PushedTo(rules, entities, records, 0, 1, base);
    assert ComesTo(rules, entities, records, 0, base);
  }

  /** Two new records with one name: the second is pushed to the numbered key that a known
      entity states after them. */
  lemma NumberedKeyRepeats(rules: Rules, e: Entity, first: Record, second: Record, third: Record)
    requires Refreshed(rules, [e], [first, second, third]).Ok?
    requires HasIso(e, third.isoAlpha2) && !Preserved(e)
    requires first.isoAlpha2 != third.isoAlpha2 && second.isoAlpha2 != third.isoAlpha2
    requires rules.classify(first.isoAlpha2).Some? && rules.classify(second.isoAlpha2).Some?
    requires BaseOf(rules, first) == BaseOf(rules, second) && e.key == BaseOf(rules, first) + "-2"
    ensures !KeysDiffer(Refreshed(rules, [e], [first, second, third]).value, KeyOf)
  {
    var records, base := [first, second, third], BaseOf(rules, first);
    OnlyEntityKnown(e, third.isoAlpha2);
    FirstNameInUse(rules, [e], records);
    assert Candidate(base, 2) == base + "-" + Decimal(2) == e.key;
    assert PushedTo(rules, [e], records, 1, 2, e.key);
    assert Poached(rules, [e], records, 1, 2);
    PoachedRepeats(rules, [e], records, 1, 2);
  }
}
