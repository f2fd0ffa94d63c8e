/** What changed between two releases: records indexed by a key field and compared by their
    canonical text. */
module Diff {
  import opened Types
  import opened Sorting
  import opened StableJson

  /** The text of a record's key field, if it has one. */
  function KeyIn(entries: seq<Entry>, field: string): Option<string> {
    if entries == [] then None
    else if entries[0].key == field then (if entries[0].value.TStr? then Some(entries[0].value.s) else None)
    else KeyIn(entries[1..], field)
  }

  function KeyOf(record: Tree, field: string): Option<string> {
    if record.TObj? then KeyIn(record.entries, field) else None
  }

  lemma {:induction false} KeyInMeaning(entries: seq<Entry>, field: string, k: string)
    requires KeysDiffer(entries, StableJson.KeyOf)
    ensures KeyIn(entries, field) == Some(k)
       <==> field in DenoteEntries(entries) && DenoteEntries(entries)[field] == Str(k)
  {
    if entries != [] {
      KeyInMeaning(entries[1..], field, k);
      if entries[0].key == field { FirstKeyIsOnly(entries, field); }
    }
  }

  lemma {:induction false} FirstKeyIsOnly(entries: seq<Entry>, field: string)
    requires KeysDiffer(entries, StableJson.KeyOf) && entries != [] && entries[0].key == field
    ensures DenoteEntries(entries)[field] == Denote(entries[0].value)
  {
  }

  /** It is the string that the record, as a value, has under the field. */
  lemma KeyOfMeaning(record: Tree, field: string, k: string)
    requires WellFormed(record)
    ensures KeyOf(record, field) == Some(k)
       <==> Denote(record).Obj? && field in Denote(record).fields && Denote(record).fields[field] == Str(k)
  {
    if record.TObj? { KeyInMeaning(record.entries, field, k); }
  }

  /** The index: of two records with one key, the last. */
  function IndexBy(values: seq<Tree>, field: string): map<string, Tree> {
    if values == [] then map[]
    else
      var front, last := IndexBy(values[..|values| - 1], field), values[|values| - 1];
      match KeyOf(last, field) case None => front case Some(k) => front[k := last]
  }

  /** Its keys, each where it first occurred. */
  function KeysIn(values: seq<Tree>, field: string): seq<string> {
    if values == [] then []
    else
      var front, k := KeysIn(values[..|values| - 1], field), KeyOf(values[|values| - 1], field);
      if k.Some? && k.value !in front then front + [k.value] else front
  }

  lemma {:induction false} KeysAreTheIndex(values: seq<Tree>, field: string)
    ensures Distinct(KeysIn(values, field))
    ensures forall k :: k in KeysIn(values, field) <==> k in IndexBy(values, field)
  {
    if values != [] { KeysAreTheIndex(values[..|values| - 1], field); }
  }

  /** Value `n` is the last with this key. */
  ghost predicate LastUnder(values: seq<Tree>, field: string, n: int, k: string) {
    && 0 <= n < |values| && KeyOf(values[n], field) == Some(k)
    && forall m :: n < m < |values| ==> KeyOf(values[m], field) != Some(k)
  }

  /** The index holds, under every key that some value has, the last value with it. */
  lemma {:induction false} IndexHoldsLast(values: seq<Tree>, field: string, k: string)
    ensures k in IndexBy(values, field) <==> exists n :: LastUnder(values, field, n, k)
    ensures forall n :: LastUnder(values, field, n, k) ==> IndexBy(values, field)[k] == values[n]
  {
    if values != [] {
      var front, last := values[..|values| - 1], |values| - 1;
      IndexHoldsLast(front, field, k);
      assert forall n :: 0 <= n < last ==> front[n] == values[n];
      if KeyOf(values[last], field) == Some(k) {
        assert LastUnder(values, field, last, k);
      } else {
        forall n | n < last ensures LastUnder(front, field, n, k) <==> LastUnder(values, field, n, k) {}
        assert !LastUnder(values, field, last, k);
        if n :| LastUnder(front, field, n, k) { assert LastUnder(values, field, n, k); }
        forall n | LastUnder(values, field, n, k) ensures LastUnder(front, field, n, k) {}
      }
    }
  }

  lemma IndexHoldsRecords(values: seq<Tree>, field: string)
    ensures forall k :: k in IndexBy(values, field) ==> IndexBy(values, field)[k] in values
  {
    forall k | k in IndexBy(values, field) ensures IndexBy(values, field)[k] in values {
      IndexHoldsLast(values, field, k);
      var n :| LastUnder(values, field, n, k);
    }
  }

  datatype Comparison = Comparison(added: seq<string>, removed: seq<string>, changed: seq<string>)

  datatype Writer = Writer(leq: KeyOrder, show: NumberText) {
    function Text(t: Tree): string {
      StableText(t, leq, show)
    }

    predicate Changed(key: string, now: map<string, Tree>, then_: map<string, Tree>) {
      key in now && key in then_ && Text(now[key]) != Text(then_[key])
    }

    function Compare(current: seq<Tree>, previous: seq<Tree>, field: string): Comparison {
      var now, then_ := IndexBy(current, field), IndexBy(previous, field);
      Comparison(
        Sort(Filter(KeysIn(current, field), (k: string) => k !in then_), TextLeq),
        Sort(Filter(KeysIn(previous, field), (k: string) => k !in now), TextLeq),
        Sort(Filter(KeysIn(current, field), (k: string) => Changed(k, now, then_)), TextLeq))
    }

    ghost predicate Sound() {
      ShowsNumbers(show) && TotalPreorder(leq) && Antisymmetric(leq)
    }

    lemma SelectedKeys(values: seq<Tree>, field: string, keep: string -> bool)
      ensures var r := Sort(Filter(KeysIn(values, field), keep), TextLeq);
        && Sorted(r, TextLeq) && Distinct(r)
        && forall k :: k in r <==> k in IndexBy(values, field) && keep(k)
    {
      var keys := Filter(KeysIn(values, field), keep);
      KeysAreTheIndex(values, field);
      TextOrder();
      SortSorted(keys, TextLeq);
      SortMembers(keys, TextLeq);
      FilterDistinct(KeysIn(values, field), keep);
      SortDistinct(keys, TextLeq);
    }

    /** Added, removed and changed mean what they say, each key named once, in order. */
    lemma CompareMeaning(current: seq<Tree>, previous: seq<Tree>, field: string)
      ensures var now, then_, c := IndexBy(current, field), IndexBy(previous, field), Compare(current, previous, field);
        && (forall k :: k in c.added <==> k in now && k !in then_)
        && (forall k :: k in c.removed <==> k in then_ && k !in now)
        && (forall k :: k in c.changed <==> Changed(k, now, then_))
        && Sorted(c.added, TextLeq) && Sorted(c.removed, TextLeq) && Sorted(c.changed, TextLeq)
        && Distinct(c.added) && Distinct(c.removed) && Distinct(c.changed)
    {
      var now, then_ := IndexBy(current, field), IndexBy(previous, field);
      SelectedKeys(current, field, (k: string) => k !in then_);
      SelectedKeys(previous, field, (k: string) => k !in now);
      SelectedKeys(current, field, (k: string) => Changed(k, now, then_));
    }

    /** Nothing is reported exactly when both sides index the same records, up to key order. */
    lemma NoDifferenceIff(current: seq<Tree>, previous: seq<Tree>, field: string)
      requires Sound()
      requires forall t :: t in current || t in previous ==> WellFormed(t)
      ensures Compare(current, previous, field) == Comparison([], [], [])
         <==> && IndexBy(current, field).Keys == IndexBy(previous, field).Keys
              && forall k :: k in IndexBy(current, field) && k in IndexBy(previous, field) ==>
                   Denote(IndexBy(current, field)[k]) == Denote(IndexBy(previous, field)[k])
    {
      var now, then_, c := IndexBy(current, field), IndexBy(previous, field), Compare(current, previous, field);
      CompareMeaning(current, previous, field);
      IndexHoldsRecords(current, field);
      IndexHoldsRecords(previous, field);
      forall k | k in now && k in then_ ensures Changed(k, now, then_) <==> Denote(now[k]) != Denote(then_[k]) {
        SameTextIffSameMeaning(now[k], then_[k], leq, show);
      }
      EmptyIff(c.added);
      EmptyIff(c.removed);
      EmptyIff(c.changed);
      if c == Comparison([], [], []) {
        forall k ensures k in now <==> k in then_ { assert k !in c.added && k !in c.removed; }
        forall k | k in now && k in then_ ensures Denote(now[k]) == Denote(then_[k]) { assert k !in c.changed; }
      }
    }

    /** Looked at from the other side, additions are removals and changes stay changes. */
    lemma CompareSwaps(current: seq<Tree>, previous: seq<Tree>, field: string)
      ensures var c, d := Compare(current, previous, field), Compare(previous, current, field);
        d.added == c.removed && d.removed == c.added && d.changed == c.changed
    {
      var now, then_ := IndexBy(current, field), IndexBy(previous, field);
      var c, d := Compare(current, previous, field), Compare(previous, current, field);
      CompareMeaning(current, previous, field);
      CompareMeaning(previous, current, field);
      assert forall k :: Changed(k, now, then_) <==> Changed(k, then_, now);
      SameSortedSet(c.changed, d.changed);
      SameSortedSet(c.added, d.removed);
      SameSortedSet(c.removed, d.added);
    }
  }

  lemma EmptyIff(s: seq<string>)
    ensures s == [] <==> forall k :: k !in s
  {
    assert s == [] || s[0] in s;
  }

  lemma {:induction false} FilterDistinct(s: seq<string>, keep: string -> bool)
    requires Distinct(s)
    ensures Distinct(Filter(s, keep))
  {
    if s != [] {
      FilterDistinct(s[1..], keep);
      assert s[0] !in Filter(s[1..], keep);
    }
  }

  lemma SameSortedSet(a: seq<string>, b: seq<string>)
    requires Sorted(a, TextLeq) && Sorted(b, TextLeq) && Distinct(a) && Distinct(b)
    requires forall k :: k in a <==> k in b
    ensures a == b
  {
    DistinctCopies(a);
    DistinctCopies(b);
    forall k ensures multiset(a)[k] == multiset(b)[k] {
      assert k in a <==> k in multiset(a);
      assert k in b <==> k in multiset(b);
    }
    TextOrder();
    PermutationSorts(a, b, TextLeq);
    SortedIsSort(a, TextLeq);
    SortedIsSort(b, TextLeq);
  }
}
