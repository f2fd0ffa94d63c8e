/** Patches grouped by entity and path, one winner a group, and the winners written into
    the entity records with their provenance. */
module Merge {
  import opened Types
  import opened Sorting
  import opened PatchChoice
  import opened PathWrites
  import opened Records
  import Matching
  import StableJson

  const NUL: char := '\0'

  datatype Lookup = Lookup(ids: Matching.Identifiers, aliases: Matching.Aliases)

  function EntityOf(lookup: Lookup, p: FieldPatch): Option<string> {
    Matching.ResolveIn(lookup.ids, lookup.aliases, p.entity, Some(p.provenance.sourceKey))
  }

  // ---- Grouping -----------------------------------------------------------------------

  function JoinKey(entityKey: string, path: string): string {
    entityKey + [NUL] + path
  }

  function GroupKey(lookup: Lookup, p: FieldPatch): Option<string> {
    match EntityOf(lookup, p) case None => None case Some(e) => Some(JoinKey(e, p.path))
  }

  /** The patches of one group, in order. */
  function Members(lookup: Lookup, patches: seq<FieldPatch>, key: string): seq<FieldPatch> {
    if patches == [] then []
    else
      var front, last := patches[..|patches| - 1], patches[|patches| - 1];
      if GroupKey(lookup, last) == Some(key) then Members(lookup, front, key) + [last] else Members(lookup, front, key)
  }

  /** The patches nobody can be found for, in order. */
  function Strays(lookup: Lookup, patches: seq<FieldPatch>): seq<FieldPatch> {
    if patches == [] then []
    else
      var front, last := patches[..|patches| - 1], patches[|patches| - 1];
      if GroupKey(lookup, last).None? then Strays(lookup, front) + [last] else Strays(lookup, front)
  }

  /** The group keys, in the order in which they first occur. */
  function KeysOf(lookup: Lookup, patches: seq<FieldPatch>): seq<string> {
    if patches == [] then []
    else
      var front := KeysOf(lookup, patches[..|patches| - 1]);
      var key := GroupKey(lookup, patches[|patches| - 1]);
      if key.Some? && key.value !in front then front + [key.value] else front
  }

  lemma {:induction false} KeysOfMeaning(lookup: Lookup, patches: seq<FieldPatch>)
    ensures Distinct(KeysOf(lookup, patches))
    ensures forall k :: k in KeysOf(lookup, patches) <==> Members(lookup, patches, k) != []
  {
    if patches != [] {
      KeysOfMeaning(lookup, patches[..|patches| - 1]);
    }
  }

  ghost predicate Grouped(lookup: Lookup, patches: seq<FieldPatch>, keys: seq<string>,
                          groups: map<string, seq<FieldPatch>>, unresolved: seq<FieldPatch>) {
    && keys == KeysOf(lookup, patches)
    && (forall k :: k in groups <==> k in keys)
    && (forall k :: k in keys ==> groups[k] == Members(lookup, patches, k))
    && unresolved == Strays(lookup, patches)
  }

  lemma {:induction false} GroupOneMore(lookup: Lookup, patches: seq<FieldPatch>, p: FieldPatch, keys: seq<string>,
                     groups: map<string, seq<FieldPatch>>, unresolved: seq<FieldPatch>)
    requires Grouped(lookup, patches, keys, groups, unresolved)
    ensures match GroupKey(lookup, p)
      case None => Grouped(lookup, patches + [p], keys, groups, unresolved + [p])
      case Some(k) =>
        var group := if k in groups then groups[k] else [];
        Grouped(lookup, patches + [p], if k in keys then keys else keys + [k], groups[k := group + [p]], unresolved)
  {
    assert (patches + [p])[..|patches|] == patches;
    KeysOfMeaning(lookup, patches);
  }

  /** The Map the source builds: its keys in insertion order, and the group of each. */
  method GroupPatches(lookup: Lookup, patches: seq<FieldPatch>)
    returns (keys: seq<string>, groups: map<string, seq<FieldPatch>>, unresolved: seq<FieldPatch>)
    ensures Grouped(lookup, patches, keys, groups, unresolved)
  {
    keys, groups, unresolved := [], map[], [];
    for n := 0 to |patches|
      invariant Grouped(lookup, patches[..n], keys, groups, unresolved)
    {
      assert patches[..n + 1] == patches[..n] + [patches[n]];
      GroupOneMore(lookup, patches[..n], patches[n], keys, groups, unresolved);
      var key := GroupKey(lookup, patches[n]);
      if key.None? {
        unresolved := unresolved + [patches[n]];
      } else {
        var group := if key.value in groups then groups[key.value] else [];
        if key.value !in groups { keys := keys + [key.value]; }
        groups := groups[key.value := group + [patches[n]]];
      }
    }
    assert patches[..|patches|] == patches;
  }

  // ---- What the groups are --------------------------------------------------------------

  function InGroup(lookup: Lookup, key: string): FieldPatch -> bool {
    (p: FieldPatch) => GroupKey(lookup, p) == Some(key)
  }

  function Stray(lookup: Lookup): FieldPatch -> bool {
    (p: FieldPatch) => GroupKey(lookup, p) == None
  }

  /** A group holds the patches with its key, in their order; and so do the unresolved ones. */
  lemma {:induction false} GroupsInOrder(lookup: Lookup, patches: seq<FieldPatch>, key: string)
    ensures Members(lookup, patches, key) == Filter(patches, InGroup(lookup, key))
    ensures Strays(lookup, patches) == Filter(patches, Stray(lookup))
  {
    if patches != [] {
      var front, last := patches[..|patches| - 1], patches[|patches| - 1];
      assert patches == front + [last];
      GroupsInOrder(lookup, front, key);
      FilterOneMore(front, last, InGroup(lookup, key));
      FilterOneMore(front, last, Stray(lookup));
    }
  }

  /** The patch goes to the group that is named after its path and the entity its reference
      resolves to for its own source; if there is no such entity, to none. */
  lemma GroupKeyMeaning(lookup: Lookup, p: FieldPatch)
    ensures Matching.ResolvesTo(lookup.ids, lookup.aliases, p.entity, Some(p.provenance.sourceKey), EntityOf(lookup, p))
    ensures EntityOf(lookup, p).None? ==> GroupKey(lookup, p) == None
    ensures EntityOf(lookup, p).Some? ==> GroupKey(lookup, p) == Some(EntityOf(lookup, p).value + "\0" + p.path)
  {
    Matching.ResolveInMeaning(lookup.ids, lookup.aliases, p.entity, Some(p.provenance.sourceKey));
  }

  /** Some patch has key `k` before any has key `l`. */
  ghost predicate OccursBefore(lookup: Lookup, patches: seq<FieldPatch>, k: string, l: string) {
    exists m :: 0 <= m < |patches| && GroupKey(lookup, patches[m]) == Some(k)
             && forall n :: 0 <= n <= m ==> GroupKey(lookup, patches[n]) != Some(l)
  }

  lemma OccursBeforeStays(lookup: Lookup, front: seq<FieldPatch>, p: FieldPatch, k: string, l: string)
    requires OccursBefore(lookup, front, k, l)
    ensures OccursBefore(lookup, front + [p], k, l)
  {
    var m :| 0 <= m < |front| && GroupKey(lookup, front[m]) == Some(k)
             && forall n :: 0 <= n <= m ==> GroupKey(lookup, front[n]) != Some(l);
    assert (front + [p])[m] == front[m];
  }

  /** The groups come in the order in which their keys first occur. */
  lemma {:induction false} KeysInOrder(lookup: Lookup, patches: seq<FieldPatch>, i: nat, j: nat)
    requires i < j < |KeysOf(lookup, patches)|
    ensures OccursBefore(lookup, patches, KeysOf(lookup, patches)[i], KeysOf(lookup, patches)[j])
  {
    var front, last := patches[..|patches| - 1], patches[|patches| - 1];
    assert patches == front + [last];
    var keys, before := KeysOf(lookup, patches), KeysOf(lookup, front);
    if j < |before| {
      KeysInOrder(lookup, front, i, j);
      OccursBeforeStays(lookup, front, last, keys[i], keys[j]);
    } else {
      KeysOfMeaning(lookup, front);
      GroupsInOrder(lookup, front, keys[i]);
      GroupsInOrder(lookup, front, keys[j]);
      assert keys[i] in before && Members(lookup, front, keys[j]) == [];
      var p := Members(lookup, front, keys[i])[0];
      assert p in Filter(front, InGroup(lookup, keys[i]));
      var m :| 0 <= m < |front| && front[m] == p;
      forall n | 0 <= n < |front| ensures GroupKey(lookup, front[n]) != Some(keys[j]) {
        assert front[n] !in Filter(front, InGroup(lookup, keys[j]));
      }
      assert OccursBefore(lookup, front, keys[i], keys[j]);
      OccursBeforeStays(lookup, front, last, keys[i], keys[j]);
    }
  }

  /** All the patches of the listed groups. */
  function Gathered(lookup: Lookup, patches: seq<FieldPatch>, keys: seq<string>): multiset<FieldPatch> {
    if keys == [] then multiset{}
    else multiset(Members(lookup, patches, keys[0])) + Gathered(lookup, patches, keys[1..])
  }

  lemma {:induction false} GatheredConcat(lookup: Lookup, patches: seq<FieldPatch>, a: seq<string>, b: seq<string>)
    ensures Gathered(lookup, patches, a + b) == Gathered(lookup, patches, a) + Gathered(lookup, patches, b)
  {
    if a == [] {
      assert a + b == b;
    } else {
      assert (a + b)[1..] == a[1..] + b;
      GatheredConcat(lookup, patches, a[1..], b);
    }
  }

  lemma {:induction false} GatheredOneMore(lookup: Lookup, front: seq<FieldPatch>, p: FieldPatch, keys: seq<string>)
    requires Distinct(keys)
    ensures var key := GroupKey(lookup, p);
      Gathered(lookup, front + [p], keys)
      == Gathered(lookup, front, keys) + if key.Some? && key.value in keys then multiset{p} else multiset{}
  {
    if keys != [] {
      assert (front + [p])[..|front|] == front;
      GatheredOneMore(lookup, front, p, keys[1..]);
    }
  }

  /** No patch is lost or used twice: each sits in one group or is reported unresolved. */
  lemma {:induction false} EveryPatchOnce(lookup: Lookup, patches: seq<FieldPatch>)
    ensures multiset(patches)
         == Gathered(lookup, patches, KeysOf(lookup, patches)) + multiset(Strays(lookup, patches))
  {
    if patches != [] {
      var front, last := patches[..|patches| - 1], patches[|patches| - 1];
      assert patches == front + [last];
      EveryPatchOnce(lookup, front);
      KeysOfMeaning(lookup, front);
      KeysOfMeaning(lookup, patches);
      GatheredOneMore(lookup, front, last, KeysOf(lookup, patches));
      var key := GroupKey(lookup, last);
      if key.Some? && key.value !in KeysOf(lookup, front) {
        NewKeyGathers(lookup, front, KeysOf(lookup, front), key.value);
      }
    }
  }

  lemma NewKeyGathers(lookup: Lookup, patches: seq<FieldPatch>, keys: seq<string>, key: string)
    requires Members(lookup, patches, key) == []
    ensures Gathered(lookup, patches, keys + [key]) == Gathered(lookup, patches, keys)
  {
    GatheredConcat(lookup, patches, keys, [key]);
    assert Gathered(lookup, patches, [key]) == multiset{};
  }

  // ---- From a group key back to entity and path ------------------------------------------

  /** The entity and the path the merge loop splits a group key into. */
  function Target(key: string): (string, string) {
    var parts := Split(key, NUL);
    if |parts| < 2 then (parts[0], "") else (parts[0], parts[1])
  }

  /** They are the ones that were joined exactly when neither holds a NUL. */
  lemma GroupKeyRoundTrip(entityKey: string, path: string)
    ensures Target(JoinKey(entityKey, path)) == (entityKey, path) <==> NUL !in entityKey && NUL !in path
  {
    SplitPartsClean(JoinKey(entityKey, path), NUL);
    var parts := Split(JoinKey(entityKey, path), NUL);
    if NUL !in entityKey {
      SplitAt(entityKey, NUL, path);
      if NUL !in path { SplitClean(path, NUL); }
    } else {
      assert parts[0] in parts;
    }
  }

  // ---- Writing the winners ----------------------------------------------------------------

  type Record = j: Json | j.Obj? witness Obj(map[])

  datatype Release = Release(
    byEntity: map<string, Record>, provenance: map<string, Provenance>, conflicts: seq<Conflict>)

  datatype Group = Group(key: string, patches: seq<FieldPatch>)

  function GroupList(lookup: Lookup, patches: seq<FieldPatch>): (groups: seq<Group>)
  {
    var keys := KeysOf(lookup, patches);
    seq(|keys|, i requires 0 <= i < |keys| => Group(keys[i], Members(lookup, patches, keys[i])))
  }

  function FieldName(key: string): string {
    Target(key).0 + "/" + Target(key).1
  }

  function MergeGroup(r: Release, g: Group, collate: SourceOrder): Release
    requires g.patches != []
  {
    var (entityKey, path) := Target(g.key);
    var winner := Winner(g.patches, collate);
    var reported := match ConflictIn(entityKey, path, g.patches, collate)
      case None => r.conflicts
      case Some(c) => r.conflicts + [c];
    if entityKey in r.byEntity then
      Release(r.byEntity[entityKey := SetPath(r.byEntity[entityKey], Split(path, '.'), winner.value)],
              r.provenance[FieldName(g.key) := winner.provenance],
              reported)
    else r.(conflicts := reported)
  }

  ghost predicate Filled(groups: seq<Group>) {
    forall g :: g in groups ==> g.patches != []
  }

  function MergeGroups(r: Release, groups: seq<Group>, collate: SourceOrder): Release
    requires Filled(groups)
    decreases |groups|
  {
    if groups == [] then r else MergeGroups(MergeGroup(r, groups[0], collate), groups[1..], collate)
  }

  lemma GroupListFilled(lookup: Lookup, patches: seq<FieldPatch>)
    ensures Filled(GroupList(lookup, patches))
  {
    KeysOfMeaning(lookup, patches);
  }

  /** The state of `mergeContent` that patches change: one record in memory an entity, none
      sharing anything with another. */
  class MergeState {
    var byEntity: map<string, MutableRecord>
    var provenance: map<string, Provenance>
    var conflicts: seq<Conflict>
    var unresolved: seq<FieldPatch>
    ghost var Repr: set<object>

    ghost predicate Owns(k: string)
      reads this, Repr
    {
      k in byEntity ==>
        byEntity[k] in Repr && byEntity[k].Repr <= Repr && byEntity[k].Valid()
    }

    ghost predicate Apart(k: string, l: string)
      reads this, Repr
    {
      k in byEntity && l in byEntity && k != l ==>
        byEntity[k] in Repr && byEntity[l] in Repr && byEntity[k].Repr !! byEntity[l].Repr
    }

    ghost predicate Valid()
      reads this, Repr
    {
      this !in Repr && (forall k :: Owns(k)) && (forall k, l :: Apart(k, l))
    }

    ghost function Held(k: string): Record
      requires k in byEntity && Owns(k)
      reads this, Repr
    {
      byEntity[k].Contents()
    }

    ghost function Current(): Release
      requires Valid()
      reads this, Repr
    {
      Release(map k | k in byEntity :: Held(k), provenance, conflicts)
    }

    constructor ()
      ensures Valid() && fresh(Repr) && Current() == Release(map[], map[], []) && unresolved == []
    {
      byEntity, provenance, conflicts, unresolved, Repr := map[], map[], [], [], {};
      new;
      forall k ensures Owns(k) {}
      forall k, l ensures Apart(k, l) {}
    }

    /** The editorial record an entity starts from. */
    method AddEntity(entityKey: string, initial: map<string, Json>)
      requires Valid() && entityKey !in byEntity
      modifies this
      ensures Valid() && fresh(Repr - old(Repr)) && unresolved == old(unresolved)
      ensures Current() == old(Current()).(byEntity := old(Current()).byEntity[entityKey := Obj(initial)])
    {
      ghost var before := Current().byEntity;
      var rec := new MutableRecord(initial);
      assert this !in rec.Repr && rec.Repr !! old(Repr);
      byEntity := byEntity[entityKey := rec];
      Repr := Repr + rec.Repr;
      forall k ensures Owns(k) { assert old(Owns(k)); }
      forall k, l ensures Apart(k, l) { assert old(Apart(k, l) && Owns(k) && Owns(l)); }
      forall k | k in byEntity && k != entityKey ensures Held(k) == old(Held(k)) { assert old(Owns(k)); }
      assert Current().byEntity == before[entityKey := Obj(initial)];
    }

    method WriteEntity(entityKey: string, path: Path, value: Json)
      requires Valid() && entityKey in byEntity
      modifies this`Repr, Repr
      ensures Valid() && fresh(Repr - old(Repr))
      ensures var before := old(Current()).byEntity;
        Current() == old(Current()).(byEntity := before[entityKey := SetPath(before[entityKey], path, value)])
    {
      ghost var before := Current().byEntity;
      assert Owns(entityKey);
      var rec := byEntity[entityKey];
      rec.Write(path, value);
      Repr := Repr + rec.Repr;
      forall k ensures Owns(k) { assert old(Owns(k) && Apart(k, entityKey)); }
      forall k, l ensures Apart(k, l) {
        assert old(Apart(k, l) && Owns(k) && Owns(l) && Apart(k, entityKey) && Apart(entityKey, l));
      }
      forall k | k in byEntity && k != entityKey ensures Held(k) == old(Held(k)) {
        assert old(Owns(k) && Apart(k, entityKey));
      }
      assert Current().byEntity == before[entityKey := SetPath(before[entityKey], path, value)];
    }

    method ApplyGroup(g: Group, collate: SourceOrder)
      requires Valid() && g.patches != []
      modifies this`provenance, this`conflicts, this`Repr, Repr
      ensures Valid() && fresh(Repr - old(Repr))
      ensures Current() == MergeGroup(old(Current()), g, collate)
    {
      ghost var before := Current();
      var (entityKey, path) := Target(g.key);
      var winner;
      winner, conflicts := ChoosePatch(entityKey, path, g.patches, collate, conflicts);
      StillValid(before);
      if entityKey in byEntity {
        WriteEntity(entityKey, Split(path, '.'), winner.value.value);
        ghost var written := Current();
        label Written:
        provenance := provenance[entityKey + "/" + path := winner.value.provenance];
        StillValid@Written(written);
      }
    }

    /** Reports and provenance are no part of any record. */
    twostate lemma StillValid(before: Release)
      requires old(Valid()) && old(Current()) == before
      requires byEntity == old(byEntity) && Repr == old(Repr)
      requires forall o: object :: o in Repr ==> unchanged(o)
      ensures Valid() && Current().byEntity == before.byEntity
    {
      forall k ensures Owns(k) { assert old(Owns(k)); }
      forall k, l ensures Apart(k, l) { assert old(Apart(k, l)); }
      forall k | k in byEntity ensures Held(k) == old(Held(k)) { assert old(Owns(k)); }
      assert Current().byEntity == before.byEntity;
    }

    method ApplyPatches(lookup: Lookup, patches: seq<FieldPatch>, collate: SourceOrder)
      requires Valid()
      modifies this, Repr
      ensures Valid() && fresh(Repr - old(Repr))
      ensures Filled(GroupList(lookup, patches))
      ensures Current() == MergeGroups(old(Current()), GroupList(lookup, patches), collate)
      ensures unresolved == old(unresolved) + Strays(lookup, patches)
    {
      ghost var start := Current();
      var keys, groups, strays := GroupPatches(lookup, patches);
      unresolved := unresolved + strays;
      StillValid(start);
      ghost var list := GroupList(lookup, patches);
      GroupListFilled(lookup, patches);
      for n := 0 to |keys|
        invariant Valid() && fresh(Repr - old(Repr))
        invariant unresolved == old(unresolved) + strays
        invariant MergeGroups(Current(), list[n..], collate) == MergeGroups(start, list, collate)
      {
        assert list[n] == Group(keys[n], groups[keys[n]]);
        MergeGroupsStep(Current(), list, n, collate);
        ApplyGroup(Group(keys[n], groups[keys[n]]), collate);
      }
    }
  }

  lemma MergeGroupsStep(r: Release, groups: seq<Group>, n: nat, collate: SourceOrder)
    requires Filled(groups) && n < |groups|
    ensures groups[n].patches != []
    ensures MergeGroups(r, groups[n..], collate)
         == MergeGroups(MergeGroup(r, groups[n], collate), groups[n + 1..], collate)
  {
    assert groups[n] in groups;
    assert groups[n..][1..] == groups[n + 1..];
  }

  // ---- What can be read back ----------------------------------------------------------------

  /** The writes a list of groups makes to one entity, in order. */
  function WritesTo(groups: seq<Group>, entityKey: string, collate: SourceOrder): seq<Write>
    requires Filled(groups)
  {
    if groups == [] then []
    else
      var rest := WritesTo(groups[1..], entityKey, collate);
      if Target(groups[0].key).0 == entityKey then [WriteOf(groups[0], collate)] + rest else rest
  }

  function WriteOf(g: Group, collate: SourceOrder): Write
    requires g.patches != []
  {
    Write(Split(Target(g.key).1, '.'), Winner(g.patches, collate).value)
  }

  lemma {:induction false} MergeIsWrites(r: Release, groups: seq<Group>, collate: SourceOrder, entityKey: string)
    requires Filled(groups) && entityKey in r.byEntity
    ensures entityKey in MergeGroups(r, groups, collate).byEntity
    ensures MergeGroups(r, groups, collate).byEntity[entityKey]
         == ApplyAll(r.byEntity[entityKey], WritesTo(groups, entityKey, collate))
    decreases |groups|
  {
    if groups != [] {
      var g, rest := groups[0], WritesTo(groups[1..], entityKey, collate);
      MergeIsWrites(MergeGroup(r, g, collate), groups[1..], collate, entityKey);
      if Target(g.key).0 == entityKey {
        assert ([WriteOf(g, collate)] + rest)[1..] == rest;
      }
    }
  }

  lemma {:induction false} WritesToMeaning(groups: seq<Group>, entityKey: string, collate: SourceOrder)
    requires Filled(groups)
    ensures forall w :: w in WritesTo(groups, entityKey, collate) <==>
              exists g :: g in groups && Target(g.key).0 == entityKey && WriteOf(g, collate) == w
  {
    if groups != [] {
      WritesToMeaning(groups[1..], entityKey, collate);
      assert groups == [groups[0]] + groups[1..];
    }
  }

  /** The record of `entityKey` shows, at the path of every one of its groups, the value of
      the group's winner. */
  ghost predicate ShowsWinners(r: Release, groups: seq<Group>, entityKey: string, collate: SourceOrder)
    requires Filled(groups) && entityKey in r.byEntity
  {
    forall g :: g in groups && Target(g.key).0 == entityKey ==>
      GetPath(r.byEntity[entityKey], WriteOf(g, collate).path) == Some(WriteOf(g, collate).value)
  }

  /** That holds after the merge exactly when winners at overlapping paths agree. */
  lemma WinnersShownIff(r: Release, groups: seq<Group>, entityKey: string, collate: SourceOrder)
    requires Filled(groups) && entityKey in r.byEntity
    ensures entityKey in MergeGroups(r, groups, collate).byEntity
    ensures ShowsWinners(MergeGroups(r, groups, collate), groups, entityKey, collate)
       <==> Compatible(WritesTo(groups, entityKey, collate))
  {
    var writes := WritesTo(groups, entityKey, collate);
    MergeIsWrites(r, groups, collate, entityKey);
    WritesToMeaning(groups, entityKey, collate);
    ReadBackIffCompatible(r.byEntity[entityKey], writes);
    var after := MergeGroups(r, groups, collate).byEntity[entityKey];
    assert ShowsWinners(MergeGroups(r, groups, collate), groups, entityKey, collate) <==> AllReadBack(after, writes);
  }

  ghost predicate NulFree(groups: seq<Group>) {
    forall g :: g in groups ==> JoinKey(Target(g.key).0, Target(g.key).1) == g.key
  }

  function KeyOfGroup(g: Group): string {
    g.key
  }

  /** No path of the groups is continued by another. */
  ghost predicate PathsApart(groups: seq<Group>) {
    forall g, h :: g in groups && h in groups && Target(g.key).0 == Target(h.key).0 ==>
      !(Split(Target(g.key).1, '.') < Split(Target(h.key).1, '.'))
  }

  /** In particular it holds for keys and paths without NUL of which none continues another. */
  lemma {:induction false} ApartWinnersShown(r: Release, groups: seq<Group>, entityKey: string, collate: SourceOrder)
    requires Filled(groups) && entityKey in r.byEntity
    requires NulFree(groups) && KeysDiffer(groups, KeyOfGroup) && PathsApart(groups)
    ensures entityKey in MergeGroups(r, groups, collate).byEntity
    ensures ShowsWinners(MergeGroups(r, groups, collate), groups, entityKey, collate)
  {
    var writes := WritesTo(groups, entityKey, collate);
    WritesToMeaning(groups, entityKey, collate);
    forall w, x | w in writes && x in writes ensures Agree(w, x) {
      ApartWritesAgree(groups, entityKey, collate, w, x);
    }
    WinnersShownIff(r, groups, entityKey, collate);
  }

  lemma {:induction false} ApartWritesAgree(groups: seq<Group>, entityKey: string, collate: SourceOrder, w: Write,
                                            x: Write)
    requires Filled(groups) && NulFree(groups) && KeysDiffer(groups, KeyOfGroup) && PathsApart(groups)
    requires exists g :: g in groups && Target(g.key).0 == entityKey && WriteOf(g, collate) == w
    requires exists h :: h in groups && Target(h.key).0 == entityKey && WriteOf(h, collate) == x
    ensures Agree(w, x)
  {
    var g :| g in groups && Target(g.key).0 == entityKey && WriteOf(g, collate) == w;
    var h :| h in groups && Target(h.key).0 == entityKey && WriteOf(h, collate) == x;
    if w.path <= x.path {
      OverlappingGroupsSame(groups, g, h);
      assert w == x && x.path[|w.path|..] == [];
    }
  }

  lemma {:induction false} OverlappingGroupsSame(groups: seq<Group>, g: Group, h: Group)
    requires NulFree(groups) && KeysDiffer(groups, KeyOfGroup) && PathsApart(groups)
    requires g in groups && h in groups && Target(g.key).0 == Target(h.key).0
    requires Split(Target(g.key).1, '.') <= Split(Target(h.key).1, '.')
    ensures g == h
  {
    assert Split(Target(g.key).1, '.') == Split(Target(h.key).1, '.');
    JoinSplit(Target(g.key).1, '.');
    JoinSplit(Target(h.key).1, '.');
    assert g.key == h.key;
    var i :| 0 <= i < |groups| && groups[i] == g;
    var j :| 0 <= j < |groups| && groups[j] == h;
    assert KeyOfGroup(groups[i]) == KeyOfGroup(groups[j]);
  }

  lemma {:induction false} WritesToConcat(a: seq<Group>, b: seq<Group>, entityKey: string, collate: SourceOrder)
    requires Filled(a) && Filled(b)
    ensures Filled(a + b)
    ensures WritesTo(a + b, entityKey, collate) == WritesTo(a, entityKey, collate) + WritesTo(b, entityKey, collate)
  {
    if a == [] {
      assert a + b == b;
    } else {
      assert (a + b)[1..] == a[1..] + b;
      WritesToConcat(a[1..], b, entityKey, collate);
    }
  }

  lemma {:induction false} WritesPermute(groups: seq<Group>, other: seq<Group>, entityKey: string, collate: SourceOrder)
    requires Filled(groups) && Filled(other) && multiset(other) == multiset(groups)
    ensures multiset(WritesTo(other, entityKey, collate)) == multiset(WritesTo(groups, entityKey, collate))
    decreases |groups|
  {
    if groups == [] {
      assert |other| == |multiset(other)| == 0;
    } else {
      assert groups == [groups[0]] + groups[1..];
      var before, after := PullOut(other, groups[0], groups[1..]);
      assert forall g :: g in before || g in after ==> g in other;
      WritesPermute(groups[1..], before + after, entityKey, collate);
      WritesToConcat(before, after, entityKey, collate);
      WritesToConcat(before, [groups[0]], entityKey, collate);
      WritesToConcat(before + [groups[0]], after, entityKey, collate);
      WritesToConcat([groups[0]], groups[1..], entityKey, collate);
    }
  }

  /** Where overlapping winners agree, the order of the groups does not change a record. */
  lemma GroupOrderIrrelevant(r: Release, groups: seq<Group>, other: seq<Group>, entityKey: string, collate: SourceOrder)
    requires Filled(groups) && Filled(other) && multiset(other) == multiset(groups)
    requires entityKey in r.byEntity && Compatible(WritesTo(groups, entityKey, collate))
    ensures entityKey in MergeGroups(r, groups, collate).byEntity
    ensures entityKey in MergeGroups(r, other, collate).byEntity
    ensures MergeGroups(r, other, collate).byEntity[entityKey] == MergeGroups(r, groups, collate).byEntity[entityKey]
  {
    MergeIsWrites(r, groups, collate, entityKey);
    MergeIsWrites(r, other, collate, entityKey);
    WritesPermute(groups, other, entityKey, collate);
    CompatibleOrderIndependent(r.byEntity[entityKey], WritesTo(groups, entityKey, collate),
                               WritesTo(other, entityKey, collate));
  }

  /** So the entity prints the same, byte for byte, whatever order its groups came in and
      whatever order its keys were inserted in. */
  lemma SameBytesWhateverOrder(r: Release, groups: seq<Group>, other: seq<Group>, entityKey: string,
                               collate: SourceOrder, one: StableJson.Tree, two: StableJson.Tree,
                               keyOrder: StableJson.KeyOrder, show: StableJson.NumberText)
    requires Filled(groups) && Filled(other) && multiset(other) == multiset(groups)
    requires entityKey in r.byEntity && Compatible(WritesTo(groups, entityKey, collate))
    requires StableJson.ShowsNumbers(show) && TotalPreorder(keyOrder) && Antisymmetric(keyOrder)
    requires StableJson.WellFormed(one) && StableJson.WellFormed(two)
    requires entityKey in MergeGroups(r, groups, collate).byEntity
          && StableJson.Denote(one) == MergeGroups(r, groups, collate).byEntity[entityKey]
    requires entityKey in MergeGroups(r, other, collate).byEntity
          && StableJson.Denote(two) == MergeGroups(r, other, collate).byEntity[entityKey]
    ensures StableJson.StableText(one, keyOrder, show) == StableJson.StableText(two, keyOrder, show)
  {
    GroupOrderIrrelevant(r, groups, other, entityKey, collate);
    StableJson.SameTextIffSameMeaning(one, two, keyOrder, show);
  }

  // ---- Conflicts -----------------------------------------------------------------------------

  /** The groups that want more than one value, in order. */
  ghost function Disputed(groups: seq<Group>): seq<Group> {
    Filter(groups, (g: Group) => ValuesDiffer(g.patches))
  }

  ghost predicate ReportsOn(c: Conflict, g: Group, collate: SourceOrder) {
    g.patches != []
    && Reports(c, Target(g.key).0, Target(g.key).1, g.patches, Winner(g.patches, collate), collate)
  }

  ghost predicate Matched<T, U>(a: seq<T>, b: seq<U>, match_: (T, U) -> bool) {
    |a| == |b| && forall i :: 0 <= i < |a| ==> match_(a[i], b[i])
  }

  lemma MatchedJoin<T, U>(a: seq<T>, b: seq<U>, c: seq<T>, d: seq<U>, match_: (T, U) -> bool)
    requires Matched(a, b, match_) && Matched(c, d, match_)
    ensures Matched(a + c, b + d, match_)
  {
  }

  ghost predicate ReportOnEach(cs: seq<Conflict>, groups: seq<Group>, collate: SourceOrder) {
    Matched(cs, groups, (c: Conflict, g: Group) => ReportsOn(c, g, collate))
  }

  lemma {:induction false} DisputedFirst(groups: seq<Group>)
    requires groups != []
    ensures Disputed(groups) == (if ValuesDiffer(groups[0].patches) then [groups[0]] else []) + Disputed(groups[1..])
  {
  }

  lemma {:induction false} ReportsFirst(groups: seq<Group>, first: seq<Conflict>, rest: seq<Conflict>,
                                        collate: SourceOrder)
    requires groups != [] && ReportOnEach(rest, Disputed(groups[1..]), collate)
    requires ReportOnEach(first, if ValuesDiffer(groups[0].patches) then [groups[0]] else [], collate)
    ensures ReportOnEach(first + rest, Disputed(groups), collate)
  {
    var one := if ValuesDiffer(groups[0].patches) then [groups[0]] else [];
    DisputedFirst(groups);
    MatchedJoin(first, one, rest, Disputed(groups[1..]), (c: Conflict, g: Group) => ReportsOn(c, g, collate));
  }

  function ReportOf(g: Group, collate: SourceOrder): seq<Conflict>
    requires g.patches != []
  {
    match ConflictIn(Target(g.key).0, Target(g.key).1, g.patches, collate) case None => [] case Some(c) => [c]
  }

  function Reported(groups: seq<Group>, collate: SourceOrder): seq<Conflict>
    requires Filled(groups)
  {
    if groups == [] then [] else ReportOf(groups[0], collate) + Reported(groups[1..], collate)
  }

  lemma MergeGroupReports(r: Release, g: Group, collate: SourceOrder)
    requires g.patches != []
    ensures MergeGroup(r, g, collate).conflicts == r.conflicts + ReportOf(g, collate)
  {
  }

  lemma JoinedThrice<T>(a: seq<T>, b: seq<T>, c: seq<T>)
    ensures (a + b) + c == a + (b + c)
  {
  }

  lemma {:induction false} MergeReports(r: Release, groups: seq<Group>, collate: SourceOrder)
    requires Filled(groups)
    ensures MergeGroups(r, groups, collate).conflicts == r.conflicts + Reported(groups, collate)
    decreases |groups|
  {
    if groups != [] {
      MergeGroupsStep(r, groups, 0, collate);
      assert groups[0..] == groups;
      MergeGroupReports(r, groups[0], collate);
      MergeReports(MergeGroup(r, groups[0], collate), groups[1..], collate);
      JoinedThrice(r.conflicts, ReportOf(groups[0], collate), Reported(groups[1..], collate));
    }
  }

  lemma {:induction false} ReportOfMeaning(g: Group, collate: SourceOrder)
    requires g.patches != [] && TotalPreorder(collate)
    ensures ReportOnEach(ReportOf(g, collate), if ValuesDiffer(g.patches) then [g] else [], collate)
  {
    ConflictMeaning(Target(g.key).0, Target(g.key).1, g.patches, collate);
  }

  lemma {:induction false} ReportedMeaning(groups: seq<Group>, collate: SourceOrder)
    requires Filled(groups) && TotalPreorder(collate)
    ensures ReportOnEach(Reported(groups, collate), Disputed(groups), collate)
  {
    if groups != [] {
      ReportOfMeaning(groups[0], collate);
      ReportedMeaning(groups[1..], collate);
      ReportsFirst(groups, ReportOf(groups[0], collate), Reported(groups[1..], collate), collate);
    }
  }

  /** The merge reports every group that wants more than one value, in order, and no other,
      whether or not there is a record to write to. */
  lemma {:induction false} ConflictsReported(r: Release, groups: seq<Group>, collate: SourceOrder)
    returns (reports: seq<Conflict>)
    requires Filled(groups) && TotalPreorder(collate)
    ensures MergeGroups(r, groups, collate).conflicts == r.conflicts + reports
    ensures ReportOnEach(reports, Disputed(groups), collate)
  {
    reports := Reported(groups, collate);
    MergeReports(r, groups, collate);
    ReportedMeaning(groups, collate);
  }

  // ---- Provenance ------------------------------------------------------------------------------

  ghost predicate Applied(r: Release, groups: seq<Group>, g: Group) {
    g in groups && Target(g.key).0 in r.byEntity
  }

  ghost predicate Credits(provenance: map<string, Provenance>, g: Group, collate: SourceOrder)
    requires g.patches != []
  {
    FieldName(g.key) in provenance && provenance[FieldName(g.key)] == Winner(g.patches, collate).provenance
  }

  ghost predicate NamesAgree(r: Release, groups: seq<Group>, collate: SourceOrder)
    requires Filled(groups)
  {
    forall g, h :: Applied(r, groups, g) && Applied(r, groups, h) && FieldName(g.key) == FieldName(h.key) ==>
      Winner(g.patches, collate).provenance == Winner(h.patches, collate).provenance
  }

  lemma {:induction false} CreditsLast(r: Release, groups: seq<Group>, collate: SourceOrder, name: string)
    requires Filled(groups)
    ensures var after := MergeGroups(r, groups, collate);
      && after.byEntity.Keys == r.byEntity.Keys
      && (if exists g :: Applied(r, groups, g) && FieldName(g.key) == name
          then exists g :: Applied(r, groups, g) && FieldName(g.key) == name && Credits(after.provenance, g, collate)
          else (name in after.provenance <==> name in r.provenance)
               && (name in r.provenance ==> after.provenance[name] == r.provenance[name]))
    decreases |groups|
  {
    if groups != [] {
      var next := MergeGroup(r, groups[0], collate);
      assert groups == [groups[0]] + groups[1..];
      assert next.byEntity.Keys == r.byEntity.Keys;
      CreditsLast(next, groups[1..], collate, name);
      if g :| Applied(next, groups[1..], g) && FieldName(g.key) == name
              && Credits(MergeGroups(r, groups, collate).provenance, g, collate) {
        assert Applied(r, groups, g);
      } else if Target(groups[0].key).0 in r.byEntity && FieldName(groups[0].key) == name {
        assert Applied(r, groups, groups[0]);
      }
    }
  }

  /** Every written path is credited to its winner's source exactly when no two groups
      with different sources share an `entity/path` name. */
  lemma ProvenanceIff(r: Release, groups: seq<Group>, collate: SourceOrder)
    requires Filled(groups)
    ensures (forall g :: Applied(r, groups, g) ==> Credits(MergeGroups(r, groups, collate).provenance, g, collate))
       <==> NamesAgree(r, groups, collate)
  {
    forall g | Applied(r, groups, g) && NamesAgree(r, groups, collate)
      ensures Credits(MergeGroups(r, groups, collate).provenance, g, collate)
    {
      CreditsLast(r, groups, collate, FieldName(g.key));
    }
  }

  /** Entity keys without a slash keep the names apart. */
  lemma SlashFreeNamesDiffer(g: Group, h: Group)
    requires NulFree([g, h])
    requires '/' !in Target(g.key).0 && '/' !in Target(h.key).0
    requires FieldName(g.key) == FieldName(h.key)
    ensures g.key == h.key
  {
    var (e, p) := Target(g.key);
    var (f, q) := Target(h.key);
    SplitAt(e, '/', p);
    SplitAt(f, '/', q);
    assert Split(FieldName(g.key), '/')[1..] == Split(p, '/');
    assert Split(FieldName(h.key), '/')[1..] == Split(q, '/');
    JoinSplit(p, '/');
    JoinSplit(q, '/');
    assert g in [g, h] && h in [g, h];
    assert JoinKey(e, p) == g.key && JoinKey(f, q) == h.key;
  }

  // ---- All of it, for the patches that come in -----------------------------------------------------

  /** Neither entity keys nor paths hold a NUL, and entity keys hold no slash. */
  ghost predicate PlainNames(lookup: Lookup, patches: seq<FieldPatch>) {
    forall p :: p in patches && EntityOf(lookup, p).Some? ==>
      NUL !in EntityOf(lookup, p).value && '/' !in EntityOf(lookup, p).value && NUL !in p.path
  }

  /** No path that is set for an entity goes on below another one. */
  ghost predicate NoPathContinued(lookup: Lookup, patches: seq<FieldPatch>) {
    forall p, q :: p in patches && q in patches && EntityOf(lookup, p).Some? ==>
      EntityOf(lookup, p) == EntityOf(lookup, q) ==> !(Split(p.path, '.') < Split(q.path, '.'))
  }

  lemma {:induction false} MembersMeaning(lookup: Lookup, patches: seq<FieldPatch>, key: string)
    ensures forall p :: p in Members(lookup, patches, key) ==> p in patches && GroupKey(lookup, p) == Some(key)
  {
    if patches != [] { MembersMeaning(lookup, patches[..|patches| - 1], key); }
  }

  /** A group of the loop is that of one of the patches, whose entity and path are its target. */
  lemma PatchOfGroup(lookup: Lookup, patches: seq<FieldPatch>, g: Group) returns (p: FieldPatch)
    requires PlainNames(lookup, patches) && g in GroupList(lookup, patches)
    ensures p in patches && EntityOf(lookup, p).Some? && g.patches != []
    ensures g.key == JoinKey(EntityOf(lookup, p).value, p.path)
    ensures Target(g.key) == (EntityOf(lookup, p).value, p.path)
  {
    GroupListFilled(lookup, patches);
    MembersMeaning(lookup, patches, g.key);
    p := g.patches[0];
    assert p in Members(lookup, patches, g.key);
    GroupKeyRoundTrip(EntityOf(lookup, p).value, p.path);
  }

  lemma GroupListApart(lookup: Lookup, patches: seq<FieldPatch>)
    requires PlainNames(lookup, patches) && NoPathContinued(lookup, patches)
    ensures var groups := GroupList(lookup, patches);
      NulFree(groups) && KeysDiffer(groups, KeyOfGroup) && PathsApart(groups)
  {
    var groups := GroupList(lookup, patches);
    KeysOfMeaning(lookup, patches);
    forall g | g in groups ensures JoinKey(Target(g.key).0, Target(g.key).1) == g.key {
      var p := PatchOfGroup(lookup, patches, g);
    }
    forall g, h | g in groups && h in groups && Target(g.key).0 == Target(h.key).0
      ensures !(Split(Target(g.key).1, '.') < Split(Target(h.key).1, '.'))
    {
      var p := PatchOfGroup(lookup, patches, g);
      var q := PatchOfGroup(lookup, patches, h);
    }
  }

  lemma GroupNamesDiffer(lookup: Lookup, patches: seq<FieldPatch>, g: Group, h: Group)
    requires PlainNames(lookup, patches) && g in GroupList(lookup, patches) && h in GroupList(lookup, patches)
    requires FieldName(g.key) == FieldName(h.key)
    ensures g == h
  {
    var p := PatchOfGroup(lookup, patches, g);
    var q := PatchOfGroup(lookup, patches, h);
    SlashFreeNamesDiffer(g, h);
  }

  /** For plain names of which no path continues another, the merge does what was chosen:
      every record shows, at the path of each of its groups, the value of the group's winner,
      and the path is credited to that winner's source. */
  lemma MergedAsChosen(lookup: Lookup, patches: seq<FieldPatch>, r: Release, collate: SourceOrder)
    requires PlainNames(lookup, patches) && NoPathContinued(lookup, patches)
    ensures Filled(GroupList(lookup, patches))
    ensures var groups := GroupList(lookup, patches);
      var after := MergeGroups(r, groups, collate);
      && (forall e :: e in r.byEntity ==> e in after.byEntity && ShowsWinners(after, groups, e, collate))
      && (forall g :: Applied(r, groups, g) ==> Credits(after.provenance, g, collate))
  {
    var groups := GroupList(lookup, patches);
    GroupListFilled(lookup, patches);
    GroupListApart(lookup, patches);
    forall e | e in r.byEntity
      ensures e in MergeGroups(r, groups, collate).byEntity
      ensures ShowsWinners(MergeGroups(r, groups, collate), groups, e, collate)
    {
      ApartWinnersShown(r, groups, e, collate);
    }
    forall g, h | g in groups && h in groups && FieldName(g.key) == FieldName(h.key) ensures g == h {
      GroupNamesDiffer(lookup, patches, g, h);
    }
    ProvenanceIff(r, groups, collate);
  }

  // ---- Where it goes wrong ----------------------------------------------------------------------

  /** Two patches for different paths make two groups of one. */
  lemma {:induction false} TwoGroups(lookup: Lookup, p: FieldPatch, q: FieldPatch, k: string, l: string)
    requires GroupKey(lookup, p) == Some(k) && GroupKey(lookup, q) == Some(l) && k != l
    ensures GroupList(lookup, [p, q]) == [Group(k, [p]), Group(l, [q])]
  {
    assert [p, q][..1] == [p] && [p][..0] == [];
    assert KeysOf(lookup, [p]) == [k] && KeysOf(lookup, [p, q]) == [k, l];
    assert Members(lookup, [p], k) == [p] && Members(lookup, [p], l) == [];
    assert Members(lookup, [p, q], k) == [p] && Members(lookup, [p, q], l) == [q];
  }

  /** A value at `a` and one below it at `a.b`: written in this order the first is lost. */
  lemma ContinuedPathLosesWinner(lookup: Lookup, r: Release, above: FieldPatch, below: FieldPatch, collate: SourceOrder)
    requires EntityOf(lookup, above) == Some("e") == EntityOf(lookup, below)
    requires above.path == "a" && below.path == "a.b" && !above.value.Obj? && "e" in r.byEntity
    ensures var groups := GroupList(lookup, [above, below]);
      && Filled(groups) && "e" in MergeGroups(r, groups, collate).byEntity
      && !ShowsWinners(MergeGroups(r, groups, collate), groups, "e", collate)
  {
    assert |JoinKey("e", "a")| != |JoinKey("e", "a.b")|;
    TwoGroups(lookup, above, below, JoinKey("e", "a"), JoinKey("e", "a.b"));
    ContinuedGroupsClash(r, Group(JoinKey("e", "a"), [above]), Group(JoinKey("e", "a.b"), [below]), collate);
  }

  lemma ContinuedGroupsClash(r: Release, g: Group, h: Group, collate: SourceOrder)
    requires g.key == JoinKey("e", "a") && h.key == JoinKey("e", "a.b") && |g.patches| == 1 == |h.patches|
    requires "e" in r.byEntity && !g.patches[0].value.Obj?
    ensures Filled([g, h]) && "e" in MergeGroups(r, [g, h], collate).byEntity
    ensures !ShowsWinners(MergeGroups(r, [g, h], collate), [g, h], "e", collate)
  {
    ContinuedTargets(g, h, collate);
    var writes := WritesTo([g, h], "e", collate);
    WritesToMeaning([g, h], "e", collate);
    assert WriteOf(g, collate) in writes && WriteOf(h, collate) in writes;
    assert ["a", "b"][1..] == ["b"];
    assert !Agree(WriteOf(g, collate), WriteOf(h, collate));
    WinnersShownIff(r, [g, h], "e", collate);
  }

  lemma ContinuedTargets(g: Group, h: Group, collate: SourceOrder)
    requires g.key == JoinKey("e", "a") && h.key == JoinKey("e", "a.b") && |g.patches| == 1 == |h.patches|
    ensures Target(g.key).0 == "e" == Target(h.key).0
    ensures WriteOf(g, collate) == Write(["a"], g.patches[0].value)
    ensures WriteOf(h, collate) == Write(["a", "b"], h.patches[0].value)
  {
    GroupKeyRoundTrip("e", "a");
    GroupKeyRoundTrip("e", "a.b");
    SplitClean("a", '.');
    SplitClean("b", '.');
    SplitAt("a", '.', "b");
    assert "a.b" == "a" + ['.'] + "b";
    OneWinner(g.patches[0], collate);
    OneWinner(h.patches[0], collate);
    assert g.patches == [g.patches[0]] && h.patches == [h.patches[0]];
  }

  lemma OneWinner(p: FieldPatch, collate: SourceOrder)
    ensures Winner([p], collate) == p
  {
    SortMembers([p], Before(collate));
    assert Winner([p], collate) in Sort([p], Before(collate));
  }

  lemma SharedName()
    ensures Target(JoinKey("a", "b/c")).0 == "a" && Target(JoinKey("a/b", "c")).0 == "a/b"
    ensures FieldName(JoinKey("a", "b/c")) == FieldName(JoinKey("a/b", "c"))
  {
    GroupKeyRoundTrip("a", "b/c");
    GroupKeyRoundTrip("a/b", "c");
    assert "a" + "/" + "b/c" == "a/b" + "/" + "c";
  }

  /** Path `b/c` of entity `a` and path `c` of entity `a/b` share one entry: one of the two
      patches is credited to the other's source. */
  lemma SharedNameMiscredits(lookup: Lookup, r: Release, one: FieldPatch, two: FieldPatch, collate: SourceOrder)
    requires EntityOf(lookup, one) == Some("a") && one.path == "b/c" && "a" in r.byEntity
    requires EntityOf(lookup, two) == Some("a/b") && two.path == "c" && "a/b" in r.byEntity
    requires one.provenance != two.provenance
    ensures var groups := GroupList(lookup, [one, two]);
      && Filled(groups)
      && exists g :: Applied(r, groups, g) && !Credits(MergeGroups(r, groups, collate).provenance, g, collate)
  {
    var g, h := Group(JoinKey("a", "b/c"), [one]), Group(JoinKey("a/b", "c"), [two]);
    assert g.key[1] != h.key[1];
    TwoGroups(lookup, one, two, g.key, h.key);
    SharedName();
    OneWinner(one, collate);
    OneWinner(two, collate);
    assert Applied(r, [g, h], g) && Applied(r, [g, h], h);
    ProvenanceIff(r, [g, h], collate);
  }
}
