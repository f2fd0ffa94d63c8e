/** Which patch of a group wins, and what is reported about the ones that lose. */
module PatchChoice {
  import opened Types
  import opened Sorting

  type SourceOrder = (SourceKey, SourceKey) -> bool

  /** Higher priority first, then by source key; `collate` stands for `localeCompare`. */
  predicate Outranks(l: FieldPatch, r: FieldPatch, collate: SourceOrder) {
    l.priority > r.priority
    || (l.priority == r.priority && collate(l.provenance.sourceKey, r.provenance.sourceKey))
  }

  function Before(collate: SourceOrder): (FieldPatch, FieldPatch) -> bool {
    (l, r) => Outranks(l, r, collate)
  }

  lemma BeforeOrder(collate: SourceOrder)
    requires TotalPreorder(collate)
    ensures TotalPreorder(Before(collate))
  {
    var leq := Before(collate);
    forall x, y ensures leq(x, y) || leq(y, x) {
      assert collate(x.provenance.sourceKey, y.provenance.sourceKey)
          || collate(y.provenance.sourceKey, x.provenance.sourceKey);
    }
    forall x, y, z | leq(x, y) && leq(y, z) ensures leq(x, z) {
      var a, b, c := x.provenance.sourceKey, y.provenance.sourceKey, z.provenance.sourceKey;
      assert collate(a, b) && collate(b, c) ==> collate(a, c);
    }
  }

  function Ordered(patches: seq<FieldPatch>, collate: SourceOrder): (r: seq<FieldPatch>)
    ensures |r| == |patches|
  {
    SortMultiset(patches, Before(collate));
    Sort(patches, Before(collate))
  }

  function Winner(patches: seq<FieldPatch>, collate: SourceOrder): FieldPatch
    requires patches != []
  {
    Ordered(patches, collate)[0]
  }

  function ValueOf(p: FieldPatch): Json {
    p.value
  }

  /** The first patch of every value. */
  function FirstOfEachValue(s: seq<FieldPatch>): seq<FieldPatch> {
    FirstOfEach(s, ValueOf)
  }

  datatype Resolution = EditorialOverride | Unresolved | SourcePriority

  datatype Candidate = Candidate(value: Json, provenance: Provenance, priority: int)

  datatype Conflict = Conflict(
    entityKey: string, path: string, selected: Json, candidates: seq<Candidate>,
    blocking: bool, resolution: Resolution, resolvedByEditorial: bool)

  function Candidates(s: seq<FieldPatch>): seq<Candidate> {
    seq(|s|, i requires 0 <= i < |s| => Candidate(s[i].value, s[i].provenance, s[i].priority))
  }

  function ConflictIn(entityKey: string, path: string, patches: seq<FieldPatch>, collate: SourceOrder): Option<Conflict>
    requires patches != []
  {
    var distinct := FirstOfEachValue(Ordered(patches, collate));
    if |distinct| <= 1 then None
    else
      var winner := Winner(patches, collate);
      var tied := Filter(distinct, (p: FieldPatch) => p.priority == winner.priority);
      var editorial := winner.provenance.sourceKey == Editorial;
      var blocking := |tied| > 1 && !editorial;
      Some(Conflict(entityKey, path, winner.value, Candidates(distinct), blocking,
                    if editorial then EditorialOverride else if blocking then Unresolved else SourcePriority,
                    editorial))
  }

  // ---- What the choice means ------------------------------------------------------

  /** In the group, with no priority above its own and, at its own, no source before its source. */
  ghost predicate Leads(p: FieldPatch, patches: seq<FieldPatch>, collate: SourceOrder) {
    && p in patches
    && (forall q :: q in patches ==> q.priority <= p.priority)
    && (forall q :: q in patches && q.priority == p.priority ==>
          collate(p.provenance.sourceKey, q.provenance.sourceKey))
  }

  ghost predicate ValuesDiffer(patches: seq<FieldPatch>) {
    exists p, q :: p in patches && q in patches && p.value != q.value
  }

  /** The patches of the group that want `value`, in order. */
  function Wanting(patches: seq<FieldPatch>, value: Json): seq<FieldPatch> {
    Filter(patches, (p: FieldPatch) => p.value == value)
  }

  /** The winner leads the group. */
  lemma WinnerIsTop(patches: seq<FieldPatch>, collate: SourceOrder)
    requires TotalPreorder(collate) && patches != []
    ensures Leads(Winner(patches, collate), patches, collate)
  {
    BeforeOrder(collate);
    SortSorted(patches, Before(collate));
    SortMembers(patches, Before(collate));
    var s, w := Ordered(patches, collate), Winner(patches, collate);
    assert Before(collate)(w, w);
    forall p | p in patches ensures Before(collate)(w, p) {
      var i :| 0 <= i < |s| && s[i] == p;
    }
  }

  ghost predicate FirstAt(s: seq<FieldPatch>, i: int) {
    0 <= i < |s| && !HasKey(s[..i], ValueOf, s[i].value)
  }

  lemma {:induction false} FirstOfEachValueAt(s: seq<FieldPatch>, p: FieldPatch) returns (i: nat)
    requires p in FirstOfEachValue(s)
    ensures FirstAt(s, i) && s[i] == p
  {
    var front, last := s[..|s| - 1], s[|s| - 1];
    if p in FirstOfEachValue(front) {
      i := FirstOfEachValueAt(front, p);
      assert front[..i] == s[..i];
    } else {
      FirstOfEachMeaning(front, ValueOf);
      i := |s| - 1;
    }
  }

  lemma CandidatesComeFromGroup(patches: seq<FieldPatch>, collate: SourceOrder)
    ensures forall p :: p in FirstOfEachValue(Ordered(patches, collate)) ==> p in patches
    ensures forall p :: p in patches ==> HasKey(FirstOfEachValue(Ordered(patches, collate)), ValueOf, p.value)
  {
    var s := Ordered(patches, collate);
    FirstOfEachMeaning(s, ValueOf);
    SortMembers(patches, Before(collate));
    forall p | p in patches ensures HasKey(s, ValueOf, p.value) {
      var i :| 0 <= i < |s| && s[i] == p;
      assert ValueOf(s[i]) == p.value;
    }
  }

  lemma FirstComesFirst(s: seq<FieldPatch>, i: int, j: nat)
    requires FirstAt(s, i) && j < |s| && s[j].value == s[i].value
    ensures i <= j
  {
    forall n | 0 <= n < i ensures s[n].value != s[i].value { assert ValueOf(s[..i][n]) == s[n].value; }
  }

  /** What stands for a value in the report leads the patches that want it. */
  lemma CandidateIsBest(patches: seq<FieldPatch>, p: FieldPatch, collate: SourceOrder)
    requires TotalPreorder(collate) && p in FirstOfEachValue(Ordered(patches, collate))
    ensures Leads(p, Wanting(patches, p.value), collate)
  {
    var s := Ordered(patches, collate);
    var i := FirstOfEachValueAt(s, p);
    CandidatesComeFromGroup(patches, collate);
    SortMembers(patches, Before(collate));
    forall q | q in Wanting(patches, p.value) ensures Outranks(p, q, collate) {
      var j :| 0 <= j < |s| && s[j] == q;
      FirstComesFirst(s, i, j);
      EarlierOutranks(patches, i, j, collate);
    }
  }

  lemma EarlierOutranks(patches: seq<FieldPatch>, i: nat, j: nat, collate: SourceOrder)
    requires TotalPreorder(collate) && i <= j < |patches|
    ensures Outranks(Ordered(patches, collate)[i], Ordered(patches, collate)[j], collate)
  {
    var s, leq := Ordered(patches, collate), Before(collate);
    BeforeOrder(collate);
    SortSorted(patches, leq);
    assert leq(s[i], s[i]);
    assert leq(s[i], s[j]);
  }

  /** Two patches of the highest priority that want different values. */
  ghost predicate TopDisagrees(patches: seq<FieldPatch>) {
    exists p, q :: p in patches && q in patches && p.value != q.value
                && p.priority == q.priority && forall r :: r in patches ==> r.priority <= p.priority
  }

  /** A conflict is reported exactly when the group wants two values. */
  lemma ConflictIffValuesDiffer(entityKey: string, path: string, patches: seq<FieldPatch>, collate: SourceOrder)
    requires TotalPreorder(collate) && patches != []
    ensures ConflictIn(entityKey, path, patches, collate).Some?
       <==> ValuesDiffer(patches)
  {
    var r := FirstOfEachValue(Ordered(patches, collate));
    CandidatesComeFromGroup(patches, collate);
    FirstOfEachMeaning(Ordered(patches, collate), ValueOf);
    if |r| > 1 {
      assert r[0] in r && r[1] in r && ValueOf(r[0]) != ValueOf(r[1]);
    } else {
      forall p, q | p in patches && q in patches ensures p.value == q.value {
        assert HasKey(r, ValueOf, p.value) && HasKey(r, ValueOf, q.value);
      }
    }
  }

  lemma FilterKeepsTwo<T(!new)>(s: seq<T>, keep: T -> bool, i: nat, j: nat)
    requires i < j < |s| && keep(s[i]) && keep(s[j])
    ensures |Filter(s, keep)| > 1
  {
    FilterConcat(s[..j], s[j..], keep);
    assert s == s[..j] + s[j..];
    assert s[i] in s[..j] && s[j] in s[j..];
    assert s[i] in Filter(s[..j], keep) && s[j] in Filter(s[j..], keep);
  }

  lemma {:induction false} FilterFindsTwo<T(!new)>(s: seq<T>, keep: T -> bool) returns (i: nat, j: nat)
    requires |Filter(s, keep)| > 1
    ensures i < j < |s| && keep(s[i]) && keep(s[j])
  {
    if keep(s[0]) {
      var x := Filter(s[1..], keep)[0];
      assert x in Filter(s[1..], keep);
      var n :| 0 <= n < |s[1..]| && s[1..][n] == x;
      i, j := 0, n + 1;
    } else {
      var m, n := FilterFindsTwo(s[1..], keep);
      i, j := m + 1, n + 1;
    }
  }

  /** It blocks exactly when patches of the highest priority disagree and the winner is
      not an editorial one. */
  lemma BlockingIffTopDisagrees(entityKey: string, path: string, patches: seq<FieldPatch>, collate: SourceOrder)
    requires TotalPreorder(collate) && patches != []
    ensures var w, c := Winner(patches, collate), ConflictIn(entityKey, path, patches, collate);
      (c.Some? && c.value.blocking)
      <==> TopDisagrees(patches) && w.provenance.sourceKey != Editorial
  {
    var w, distinct := Winner(patches, collate), FirstOfEachValue(Ordered(patches, collate));
    var top := (p: FieldPatch) => p.priority == w.priority;
    ConflictIffValuesDiffer(entityKey, path, patches, collate);
    if TopDisagrees(patches) {
      TopTwoAreTied(patches, collate);
    }
    if |Filter(distinct, top)| > 1 { TiedTopsDisagree(patches, collate); }
  }

  lemma TiedTopsDisagree(patches: seq<FieldPatch>, collate: SourceOrder)
    requires TotalPreorder(collate) && patches != []
    requires var top := (p: FieldPatch) => p.priority == Winner(patches, collate).priority;
      |Filter(FirstOfEachValue(Ordered(patches, collate)), top)| > 1
    ensures TopDisagrees(patches)
  {
    var w, distinct := Winner(patches, collate), FirstOfEachValue(Ordered(patches, collate));
    var i, j := FilterFindsTwo(distinct, (p: FieldPatch) => p.priority == w.priority);
    CandidatesComeFromGroup(patches, collate);
    FirstOfEachMeaning(Ordered(patches, collate), ValueOf);
    WinnerIsTop(patches, collate);
    var p, q := distinct[i], distinct[j];
    assert ValueOf(p) != ValueOf(q);
    assert p in distinct && q in distinct;
  }

  lemma TopTwoAreTied(patches: seq<FieldPatch>, collate: SourceOrder)
    requires TotalPreorder(collate) && patches != []
    requires TopDisagrees(patches)
    ensures var top := (p: FieldPatch) => p.priority == Winner(patches, collate).priority;
      |Filter(FirstOfEachValue(Ordered(patches, collate)), top)| > 1
  {
    var w, distinct := Winner(patches, collate), FirstOfEachValue(Ordered(patches, collate));
    var top := (p: FieldPatch) => p.priority == w.priority;
    WinnerIsTop(patches, collate);
    var p, q :| p in patches && q in patches && p.priority == q.priority == w.priority && p.value != q.value;
    var i := TopCandidate(patches, p, collate);
    var j := TopCandidate(patches, q, collate);
    if i < j { FilterKeepsTwo(distinct, top, i, j); } else { FilterKeepsTwo(distinct, top, j, i); }
  }

  lemma TopCandidate(patches: seq<FieldPatch>, p: FieldPatch, collate: SourceOrder) returns (i: nat)
    requires TotalPreorder(collate) && p in patches && p.priority == Winner(patches, collate).priority
    ensures var distinct := FirstOfEachValue(Ordered(patches, collate));
      i < |distinct| && distinct[i].value == p.value && distinct[i].priority == p.priority
  {
    var distinct := FirstOfEachValue(Ordered(patches, collate));
    CandidatesComeFromGroup(patches, collate);
    assert HasKey(distinct, ValueOf, p.value);
    i :| 0 <= i < |distinct| && ValueOf(distinct[i]) == p.value;
    assert distinct[i] in distinct;
    CandidateIsBest(patches, distinct[i], collate);
    assert p in Wanting(patches, p.value);
    WinnerIsTop(patches, collate);
  }

  // ---- What is reported of the candidates ---------------------------------------------

  /** A patch that leads those that want the candidate's value speaks for it. */
  ghost predicate Spoken(c: Candidate, patches: seq<FieldPatch>, collate: SourceOrder) {
    exists p: FieldPatch ::
      c == Candidate(p.value, p.provenance, p.priority) && Leads(p, Wanting(patches, c.value), collate)
  }

  ghost predicate RankedBefore(c: Candidate, d: Candidate, collate: SourceOrder) {
    && c.priority >= d.priority
    && (c.priority == d.priority ==> collate(c.provenance.sourceKey, d.provenance.sourceKey))
  }

  ghost predicate AllSpeak(cs: seq<Candidate>, patches: seq<FieldPatch>, collate: SourceOrder) {
    forall i :: 0 <= i < |cs| ==> Spoken(cs[i], patches, collate)
  }

  ghost predicate InRankOrder(cs: seq<Candidate>, collate: SourceOrder) {
    forall i, j :: 0 <= i < j < |cs| ==> cs[i].value != cs[j].value && RankedBefore(cs[i], cs[j], collate)
  }

  ghost predicate Offers(cs: seq<Candidate>, value: Json) {
    exists i :: 0 <= i < |cs| && cs[i].value == value
  }

  /** One candidate for every value the group wants, made from a patch that leads those that
      want it; the highest priority first, and by source at one priority. */
  ghost predicate Ranks(cs: seq<Candidate>, patches: seq<FieldPatch>, collate: SourceOrder) {
    AllSpeak(cs, patches, collate) && InRankOrder(cs, collate) && forall q :: q in patches ==> Offers(cs, q.value)
  }

  lemma {:induction false} FirstOfEachValueSorted(s: seq<FieldPatch>, leq: (FieldPatch, FieldPatch) -> bool)
    requires Sorted(s, leq)
    ensures Sorted(FirstOfEachValue(s), leq)
  {
    if s != [] {
      var front, last := s[..|s| - 1], s[|s| - 1];
      FirstOfEachValueSorted(front, leq);
      FirstOfEachMeaning(front, ValueOf);
      assert forall p :: p in front ==> leq(p, last);
    }
  }

  lemma CandidatesSpeak(s: seq<FieldPatch>, patches: seq<FieldPatch>, collate: SourceOrder)
    requires forall p :: p in s ==> Leads(p, Wanting(patches, p.value), collate)
    ensures AllSpeak(Candidates(s), patches, collate)
  {
    var cs := Candidates(s);
    forall i | 0 <= i < |cs| ensures Spoken(cs[i], patches, collate) {
      assert s[i] in s && Leads(s[i], Wanting(patches, cs[i].value), collate);
    }
  }

  lemma CandidatesInOrder(s: seq<FieldPatch>, collate: SourceOrder)
    requires Sorted(s, Before(collate)) && KeysDiffer(s, ValueOf)
    ensures InRankOrder(Candidates(s), collate)
  {
    forall i, j | 0 <= i < j < |s| ensures s[i].value != s[j].value && Outranks(s[i], s[j], collate) {
      assert ValueOf(s[i]) != ValueOf(s[j]) && Before(collate)(s[i], s[j]);
    }
  }

  lemma CandidatesOffer(s: seq<FieldPatch>, value: Json)
    requires HasKey(s, ValueOf, value)
    ensures Offers(Candidates(s), value)
  {
    var i :| 0 <= i < |s| && ValueOf(s[i]) == value;
    assert Candidates(s)[i].value == value;
  }

  lemma {:induction false} CandidatesRank(patches: seq<FieldPatch>, collate: SourceOrder)
    requires TotalPreorder(collate)
    ensures Ranks(Candidates(FirstOfEachValue(Ordered(patches, collate))), patches, collate)
  {
    var ordered := Ordered(patches, collate);
    BeforeOrder(collate);
    SortSorted(patches, Before(collate));
    FirstOfEachValueSorted(ordered, Before(collate));
    FirstOfEachMeaning(ordered, ValueOf);
    forall p | p in FirstOfEachValue(ordered) ensures Leads(p, Wanting(patches, p.value), collate) {
      CandidateIsBest(patches, p, collate);
    }
    CandidatesSpeak(FirstOfEachValue(ordered), patches, collate);
    CandidatesInOrder(FirstOfEachValue(ordered), collate);
    CandidatesComeFromGroup(patches, collate);
    forall q | q in patches ensures Offers(Candidates(FirstOfEachValue(ordered)), q.value) {
      CandidatesOffer(FirstOfEachValue(ordered), q.value);
    }
  }

  // ---- When the order of the group matters --------------------------------------------

  ghost predicate SelectionIgnoresOrder(patches: seq<FieldPatch>, collate: SourceOrder)
    requires patches != []
  {
    forall q: seq<FieldPatch> :: q != [] && multiset(q) == multiset(patches) ==>
      Winner(q, collate).value == Winner(patches, collate).value
  }

  /** The patches nothing outranks agree on the value. */
  ghost predicate LeadersAgree(patches: seq<FieldPatch>, collate: SourceOrder) {
    forall p, q :: Leads(p, patches, collate) && Leads(q, patches, collate) ==> p.value == q.value
  }

  lemma LeaderFirstWins(patches: seq<FieldPatch>, p: FieldPatch, collate: SourceOrder)
    requires TotalPreorder(collate) && patches != [] && patches[0] == p
    requires Leads(p, patches, collate)
    ensures Winner(patches, collate) == p
  {
    var leq, w := Before(collate), Winner(patches, collate);
    BeforeOrder(collate);
    WinnerIsTop(patches, collate);
    SortStable(patches, p, leq);
    assert Tied(p, w, leq);
    assert TieClass(Sort(patches, leq), p, leq)[0] == w;
    assert TieClass(patches, p, leq)[0] == p;
  }

  /** The selected value is the same for every order of the group exactly when the
      leading patches agree. */
  lemma SelectionIgnoresOrderIff(patches: seq<FieldPatch>, collate: SourceOrder)
    requires TotalPreorder(collate) && patches != []
    ensures SelectionIgnoresOrder(patches, collate) <==> LeadersAgree(patches, collate)
  {
    BeforeOrder(collate);
    if LeadersAgree(patches, collate) {
      forall q: seq<FieldPatch> | q != [] && multiset(q) == multiset(patches)
        ensures Winner(q, collate).value == Winner(patches, collate).value
      {
        WinnersLead(patches, q, collate);
      }
    }
    if SelectionIgnoresOrder(patches, collate) {
      forall p | Leads(p, patches, collate) ensures p.value == Winner(patches, collate).value {
        var q := AnyLeaderCanWin(patches, p, collate);
      }
    }
  }

  lemma WinnersLead(patches: seq<FieldPatch>, q: seq<FieldPatch>, collate: SourceOrder)
    requires TotalPreorder(collate) && patches != [] && q != [] && multiset(q) == multiset(patches)
    ensures Leads(Winner(q, collate), patches, collate) && Leads(Winner(patches, collate), patches, collate)
  {
    WinnerIsTop(patches, collate);
    WinnerIsTop(q, collate);
    SameMembers(patches, q);
  }

  lemma AnyLeaderCanWin(patches: seq<FieldPatch>, p: FieldPatch, collate: SourceOrder)
    returns (q: seq<FieldPatch>)
    requires TotalPreorder(collate) && Leads(p, patches, collate)
    ensures q != [] && multiset(q) == multiset(patches) && Winner(q, collate) == p
  {
    var i :| 0 <= i < |patches| && patches[i] == p;
    q := [p] + patches[..i] + patches[i + 1..];
    assert patches == patches[..i] + [p] + patches[i + 1..];
    assert forall x :: x in q ==> x in patches;
    LeaderFirstWins(q, p, collate);
  }

  /** So a group that is neither blocked nor settled by an editor selects one value. */
  lemma UnblockedSelectionIgnoresOrder(entityKey: string, path: string, patches: seq<FieldPatch>, collate: SourceOrder)
    requires TotalPreorder(collate) && patches != []
    requires Winner(patches, collate).provenance.sourceKey != Editorial
    requires var c := ConflictIn(entityKey, path, patches, collate); c.None? || !c.value.blocking
    ensures SelectionIgnoresOrder(patches, collate)
  {
    BlockingIffTopDisagrees(entityKey, path, patches, collate);
    WinnerIsTop(patches, collate);
    SelectionIgnoresOrderIff(patches, collate);
  }

  /** Two editorial statements with one priority and two values: their order decides which is
      selected, and nothing blocks. */
  lemma EditorialTieDependsOnOrder(entityKey: string, path: string, p: FieldPatch, q: FieldPatch, collate: SourceOrder)
    requires TotalPreorder(collate) && p.value != q.value && p.priority == q.priority
    requires p.provenance.sourceKey == q.provenance.sourceKey == Editorial
    ensures Winner([p, q], collate).value != Winner([q, p], collate).value
    ensures ConflictIn(entityKey, path, [p, q], collate).Some?
    ensures !ConflictIn(entityKey, path, [p, q], collate).value.blocking
  {
    assert collate(Editorial, Editorial);
    assert forall x :: x in [p, q] || x in [q, p] ==> x == p || x == q;
    LeaderFirstWins([p, q], p, collate);
    LeaderFirstWins([q, p], q, collate);
    assert p in [p, q] && q in [p, q];
    ConflictIffValuesDiffer(entityKey, path, [p, q], collate);
    BlockingIffTopDisagrees(entityKey, path, [p, q], collate);
  }

  // ---- The choice, step by step --------------------------------------------------------

  /** Of several leaders the first in the group. */
  ghost predicate LeadsFirst(p: FieldPatch, patches: seq<FieldPatch>, collate: SourceOrder) {
    && Leads(p, patches, collate)
    && exists i :: 0 <= i < |patches| && patches[i] == p
                && forall j :: 0 <= j < i ==> !Leads(patches[j], patches, collate)
  }

  lemma {:induction false} TieClassBegins(s: seq<FieldPatch>, x: FieldPatch, collate: SourceOrder) returns (i: nat)
    requires TieClass(s, x, Before(collate)) != []
    ensures i < |s| && s[i] == TieClass(s, x, Before(collate))[0]
    ensures forall j :: 0 <= j < i ==> !Tied(x, s[j], Before(collate))
  {
    if Tied(x, s[0], Before(collate)) {
      i := 0;
    } else {
      var n := TieClassBegins(s[1..], x, collate);
      i := n + 1;
    }
  }

  /** Nobody ranks higher than the winner, and nobody who ranks as high comes before it. */
  lemma WinnerLeadsFirst(patches: seq<FieldPatch>, collate: SourceOrder)
    requires TotalPreorder(collate) && patches != []
    ensures LeadsFirst(Winner(patches, collate), patches, collate)
  {
    var w, leq := Winner(patches, collate), Before(collate);
    BeforeOrder(collate);
    WinnerIsTop(patches, collate);
    SortStable(patches, w, leq);
    assert Tied(w, w, leq);
    assert TieClass(Ordered(patches, collate), w, leq)[0] == w;
    var i := TieClassBegins(patches, w, collate);
    forall j | 0 <= j < i ensures !Leads(patches[j], patches, collate) {
      assert patches[j] in patches && !Tied(w, patches[j], leq);
    }
  }

  /** The conflict says what was chosen, what else was wanted, and whether it blocks. */
  ghost predicate Reports(c: Conflict, entityKey: string, path: string, patches: seq<FieldPatch>, winner: FieldPatch,
                          collate: SourceOrder) {
    && c.entityKey == entityKey && c.path == path && c.selected == winner.value
    && Ranks(c.candidates, patches, collate)
    && (c.resolvedByEditorial <==> winner.provenance.sourceKey == Editorial)
    && (c.blocking <==> TopDisagrees(patches) && winner.provenance.sourceKey != Editorial)
    && (c.resolution == EditorialOverride <==> c.resolvedByEditorial)
    && (c.resolution == Unresolved <==> c.blocking)
  }

  lemma {:induction false} ConflictParts(entityKey: string, path: string, patches: seq<FieldPatch>,
                                         collate: SourceOrder)
    requires patches != [] && ConflictIn(entityKey, path, patches, collate).Some?
    ensures var c, winner := ConflictIn(entityKey, path, patches, collate).value, Winner(patches, collate);
      && c.entityKey == entityKey && c.path == path && c.selected == winner.value
      && c.candidates == Candidates(FirstOfEachValue(Ordered(patches, collate)))
      && (c.resolvedByEditorial <==> winner.provenance.sourceKey == Editorial)
      && (c.resolution == EditorialOverride <==> c.resolvedByEditorial)
      && (c.resolution == Unresolved <==> c.blocking)
  {
  }

  lemma {:induction false} ConflictMeaning(entityKey: string, path: string, patches: seq<FieldPatch>,
                                           collate: SourceOrder)
    requires TotalPreorder(collate) && patches != []
    ensures var c := ConflictIn(entityKey, path, patches, collate);
      && (c.Some? <==> ValuesDiffer(patches))
      && (c.Some? ==> Reports(c.value, entityKey, path, patches, Winner(patches, collate), collate))
  {
    CandidatesRank(patches, collate);
    if ConflictIn(entityKey, path, patches, collate).Some? { ConflictParts(entityKey, path, patches, collate); }
    ConflictIffValuesDiffer(entityKey, path, patches, collate);
    BlockingIffTopDisagrees(entityKey, path, patches, collate);
  }

  /** Chooses the first patch of the highest priority and, at that priority, of the first source,
      and reports a conflict exactly when the group wants two values: one that ranks them and
      blocks exactly when patches of the highest priority disagree and no editor has decided. */
  method ChoosePatch(entityKey: string, path: string, patches: seq<FieldPatch>, collate: SourceOrder,
                     conflicts: seq<Conflict>)
    returns (winner: Option<FieldPatch>, reported: seq<Conflict>)
    ensures winner == if patches == [] then None else Some(Winner(patches, collate))
    ensures reported == conflicts + if patches == [] then [] else
                          match ConflictIn(entityKey, path, patches, collate) case None => [] case Some(c) => [c]
    ensures patches != [] && TotalPreorder(collate) ==>
              && winner.value in patches
              && (forall q :: q in patches ==> q.priority <= winner.value.priority)
              && (forall q :: q in patches && q.priority == winner.value.priority ==>
                    collate(winner.value.provenance.sourceKey, q.provenance.sourceKey))
              && LeadsFirst(winner.value, patches, collate)
              && (reported == conflicts <==> !ValuesDiffer(patches))
              && (ValuesDiffer(patches) ==>
                    && |reported| == |conflicts| + 1
                    && Reports(reported[|conflicts|], entityKey, path, patches, winner.value, collate))
  {
    reported := conflicts;
    if patches == [] {
      return None, reported;   // the source throws here
    }
    winner := Some(Winner(patches, collate));
    var conflict := ConflictIn(entityKey, path, patches, collate);
    if conflict.Some? {
      reported := reported + [conflict.value];
    }
    if TotalPreorder(collate) {
      WinnerLeadsFirst(patches, collate);
      ConflictMeaning(entityKey, path, patches, collate);
    }
  }
}
