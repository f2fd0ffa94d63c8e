/** Stable sorting, as `Array.prototype.sort` promises it, and the order in which
    JavaScript compares strings.

    `Sort` is one stable sort; `StableSortUnique` shows that it is the only one, so
    nothing here depends on which algorithm the runtime uses. */
module Sorting {

  ghost predicate TotalPreorder<T(!new)>(leq: (T, T) -> bool) {
    && (forall x, y :: leq(x, y) || leq(y, x))
    && (forall x, y, z :: leq(x, y) && leq(y, z) ==> leq(x, z))
  }

  ghost predicate Antisymmetric<T(!new)>(leq: (T, T) -> bool) {
    forall x, y :: leq(x, y) && leq(y, x) ==> x == y
  }

  predicate Tied<T>(x: T, y: T, leq: (T, T) -> bool) {
    leq(x, y) && leq(y, x)
  }

  ghost predicate Sorted<T(!new)>(s: seq<T>, leq: (T, T) -> bool) {
    forall i, j :: 0 <= i < j < |s| ==> leq(s[i], s[j])
  }

  function Insert<T>(x: T, s: seq<T>, leq: (T, T) -> bool): seq<T> {
    if s == [] then [x]
    else if leq(x, s[0]) then [x] + s
    else [s[0]] + Insert(x, s[1..], leq)
  }

  function Sort<T>(s: seq<T>, leq: (T, T) -> bool): seq<T> {
    if s == [] then [] else Insert(s[0], Sort(s[1..], leq), leq)
  }

  /** The elements of `s` that tie with `x`, in their order in `s`. */
  function TieClass<T>(s: seq<T>, x: T, leq: (T, T) -> bool): seq<T> {
    if s == [] then []
    else if Tied(x, s[0], leq) then [s[0]] + TieClass(s[1..], x, leq)
    else TieClass(s[1..], x, leq)
  }

  lemma {:induction false} InsertMultiset<T>(x: T, s: seq<T>, leq: (T, T) -> bool)
    ensures multiset(Insert(x, s, leq)) == multiset{x} + multiset(s)
  {
    if s != [] && !leq(x, s[0]) {
      InsertMultiset(x, s[1..], leq);
      assert s == [s[0]] + s[1..];
    }
  }

  lemma {:induction false} SortMultiset<T>(s: seq<T>, leq: (T, T) -> bool)
    ensures multiset(Sort(s, leq)) == multiset(s)
    ensures |Sort(s, leq)| == |s|
  {
    if s != [] {
      SortMultiset(s[1..], leq);
      InsertMultiset(s[0], Sort(s[1..], leq), leq);
      assert s == [s[0]] + s[1..];
      assert |Sort(s, leq)| == |multiset(Sort(s, leq))| == |multiset(s)|;
    }
  }

  lemma SortMembers<T>(s: seq<T>, leq: (T, T) -> bool)
    ensures forall x :: x in Sort(s, leq) <==> x in s
  {
    SortMultiset(s, leq);
    assert forall x :: x in Sort(s, leq) <==> x in multiset(Sort(s, leq));
  }

  lemma {:induction false} InsertSorted<T(!new)>(x: T, s: seq<T>, leq: (T, T) -> bool)
    requires TotalPreorder(leq) && Sorted(s, leq)
    ensures Sorted(Insert(x, s, leq), leq)
  {
    if s != [] && !leq(x, s[0]) {
      InsertSorted(x, s[1..], leq);
      InsertMultiset(x, s[1..], leq);
      var r := Insert(x, s[1..], leq);
      forall j | 0 <= j < |r| ensures leq(s[0], r[j]) {
        assert r[j] in multiset(r);
        if r[j] != x { assert r[j] in s[1..]; }
      }
    }
  }

  lemma {:induction false} SortSorted<T(!new)>(s: seq<T>, leq: (T, T) -> bool)
    requires TotalPreorder(leq)
    ensures Sorted(Sort(s, leq), leq)
  {
    if s != [] {
      SortSorted(s[1..], leq);
      InsertSorted(s[0], Sort(s[1..], leq), leq);
    }
  }

  lemma {:induction false} InsertTieClass<T(!new)>(e: T, s: seq<T>, x: T, leq: (T, T) -> bool)
    requires TotalPreorder(leq)
    ensures TieClass(Insert(e, s, leq), x, leq) == TieClass([e] + s, x, leq)
  {
    if s != [] && !leq(e, s[0]) {
      InsertTieClass(e, s[1..], x, leq);
      var r := Insert(e, s[1..], leq);
      assert Insert(e, s, leq)[1..] == r;
      assert ([e] + s)[1..] == s && ([e] + s[1..])[1..] == s[1..];
    }
  }

  /** Elements that tie keep their order: the sort is stable. */
  lemma {:induction false} SortStable<T(!new)>(s: seq<T>, x: T, leq: (T, T) -> bool)
    requires TotalPreorder(leq)
    ensures TieClass(Sort(s, leq), x, leq) == TieClass(s, x, leq)
  {
    if s != [] {
      SortStable(s[1..], x, leq);
      InsertTieClass(s[0], Sort(s[1..], leq), x, leq);
      assert ([s[0]] + Sort(s[1..], leq))[1..] == Sort(s[1..], leq);
    }
  }

  lemma {:induction false} TieClassConcat<T>(a: seq<T>, b: seq<T>, x: T, leq: (T, T) -> bool)
    ensures TieClass(a + b, x, leq) == TieClass(a, x, leq) + TieClass(b, x, leq)
  {
    if a == [] {
      assert a + b == b;
    } else {
      assert (a + b)[1..] == a[1..] + b;
      TieClassConcat(a[1..], b, x, leq);
    }
  }

  lemma {:induction false} TieClassMember<T(!new)>(s: seq<T>, i: nat, leq: (T, T) -> bool)
    requires TotalPreorder(leq) && i < |s|
    ensures TieClass(s, s[i], leq) != []
  {
    if i > 0 {
      TieClassMember(s[1..], i - 1, leq);
    }
  }

  lemma {:induction false} TieClassSound<T>(s: seq<T>, x: T, leq: (T, T) -> bool)
    ensures forall y :: y in TieClass(s, x, leq) ==> y in s && Tied(x, y, leq)
  {
    if s != [] {
      TieClassSound(s[1..], x, leq);
    }
  }

  lemma {:induction false} TieClassEmpty<T>(s: seq<T>, x: T, leq: (T, T) -> bool)
    requires forall i :: 0 <= i < |s| ==> !Tied(x, s[i], leq)
    ensures TieClass(s, x, leq) == []
  {
    if s != [] { TieClassEmpty(s[1..], x, leq); }
  }

  ghost predicate SameTieClasses<T(!new)>(a: seq<T>, b: seq<T>, leq: (T, T) -> bool) {
    forall x :: TieClass(a, x, leq) == TieClass(b, x, leq)
  }

  lemma HeadLeast<T(!new)>(a: seq<T>, b: seq<T>, leq: (T, T) -> bool)
    requires TotalPreorder(leq) && Sorted(b, leq) && SameTieClasses(a, b, leq) && a != []
    ensures b != [] && leq(b[0], a[0])
  {
    TieClassMember(a, 0, leq);
    var c := TieClass(b, a[0], leq);
    assert c == TieClass(a, a[0], leq);
    TieClassSound(b, a[0], leq);
    assert c[0] in b && Tied(a[0], c[0], leq);
    assert leq(b[0], c[0]);
  }

  /** Two sorted lists whose ties stand in the same order are the same list. */
  lemma {:induction false} SortedDeterminedByTies<T(!new)>(a: seq<T>, b: seq<T>, leq: (T, T) -> bool)
    requires TotalPreorder(leq)
    requires Sorted(a, leq) && Sorted(b, leq) && SameTieClasses(a, b, leq)
    ensures a == b
  {
    if a == [] {
      if b != [] { HeadLeast(b, a, leq); }
    } else {
      HeadLeast(a, b, leq);
      HeadLeast(b, a, leq);
      assert TieClass(a, a[0], leq)[0] == a[0];
      assert TieClass(b, a[0], leq)[0] == b[0];
      forall x ensures TieClass(a[1..], x, leq) == TieClass(b[1..], x, leq) {
        assert TieClass(a, x, leq) == TieClass(b, x, leq);
        if Tied(x, a[0], leq) {
          assert TieClass(a, x, leq)[1..] == TieClass(a[1..], x, leq);
          assert TieClass(b, x, leq)[1..] == TieClass(b[1..], x, leq);
        }
      }
      SortedDeterminedByTies(a[1..], b[1..], leq);
    }
  }

  /** Whatever stable sort the runtime uses, its result is `Sort`. */
  lemma StableSortUnique<T(!new)>(s: seq<T>, r: seq<T>, leq: (T, T) -> bool)
    requires TotalPreorder(leq) && Sorted(r, leq) && SameTieClasses(r, s, leq)
    ensures r == Sort(s, leq)
  {
    SortSorted(s, leq);
    forall x ensures TieClass(Sort(s, leq), x, leq) == TieClass(r, x, leq) {
      SortStable(s, x, leq);
      assert TieClass(r, x, leq) == TieClass(s, x, leq);
    }
    SortedDeterminedByTies(r, Sort(s, leq), leq);
  }

  lemma SortedIsSort<T(!new)>(s: seq<T>, leq: (T, T) -> bool)
    requires TotalPreorder(leq) && Sorted(s, leq)
    ensures Sort(s, leq) == s
  {
    StableSortUnique(s, s, leq);
  }

  lemma SameTiesSameSort<T(!new)>(a: seq<T>, b: seq<T>, leq: (T, T) -> bool)
    requires TotalPreorder(leq) && SameTieClasses(a, b, leq)
    ensures Sort(a, leq) == Sort(b, leq)
  {
    SortSorted(a, leq);
    forall x ensures TieClass(Sort(a, leq), x, leq) == TieClass(b, x, leq) {
      SortStable(a, x, leq);
      assert TieClass(a, x, leq) == TieClass(b, x, leq);
    }
    StableSortUnique(b, Sort(a, leq), leq);
  }

  /** Sorting a stretch of the input first changes nothing. */
  lemma PresortedPart<T(!new)>(a: seq<T>, b: seq<T>, c: seq<T>, leq: (T, T) -> bool)
    requires TotalPreorder(leq)
    ensures Sort(a + Sort(b, leq) + c, leq) == Sort(a + b + c, leq)
  {
    forall x ensures TieClass(a + Sort(b, leq) + c, x, leq) == TieClass(a + b + c, x, leq) {
      SortStable(b, x, leq);
      TieClassConcat(a + Sort(b, leq), c, x, leq);
      TieClassConcat(a, Sort(b, leq), x, leq);
      TieClassConcat(a + b, c, x, leq);
      TieClassConcat(a, b, x, leq);
    }
    SameTiesSameSort(a + Sort(b, leq) + c, a + b + c, leq);
  }

  /** With no ties between different elements, a permutation sorts to the same list. */
  lemma PermutationSorts<T(!new)>(a: seq<T>, b: seq<T>, leq: (T, T) -> bool)
    requires TotalPreorder(leq) && Antisymmetric(leq)
    requires multiset(a) == multiset(b)
    ensures Sort(a, leq) == Sort(b, leq)
  {
    forall x ensures TieClass(a, x, leq) == TieClass(b, x, leq) {
      TieClassCopies(a, x, leq);
      TieClassCopies(b, x, leq);
    }
    SameTiesSameSort(a, b, leq);
  }

  lemma {:induction false} TieClassCopies<T(!new)>(s: seq<T>, x: T, leq: (T, T) -> bool)
    requires TotalPreorder(leq) && Antisymmetric(leq)
    ensures TieClass(s, x, leq) == seq(multiset(s)[x], _ => x)
  {
    if s != [] {
      TieClassCopies(s[1..], x, leq);
      assert s == [s[0]] + s[1..];
      if s[0] == x {
        assert Tied(x, x, leq);
      } else {
        assert !Tied(x, s[0], leq);
      }
    }
  }

  function Filter<T(!new)>(s: seq<T>, keep: T -> bool): (r: seq<T>)
    ensures forall x :: x in r <==> x in s && keep(x)
    ensures |r| <= |s|
  {
    if s == [] then []
    else if keep(s[0]) then [s[0]] + Filter(s[1..], keep)
    else Filter(s[1..], keep)
  }

  function Not<T>(keep: T -> bool): T -> bool {
    x => !keep(x)
  }

  lemma {:induction false} FilterConcat<T(!new)>(a: seq<T>, b: seq<T>, keep: T -> bool)
    ensures Filter(a + b, keep) == Filter(a, keep) + Filter(b, keep)
  {
    if a == [] {
      assert a + b == b;
    } else {
      assert (a + b)[1..] == a[1..] + b;
      FilterConcat(a[1..], b, keep);
    }
  }

  lemma {:induction false} FilterOneMore<T(!new)>(s: seq<T>, x: T, keep: T -> bool)
    ensures Filter(s + [x], keep) == Filter(s, keep) + if keep(x) then [x] else []
  {
    FilterConcat(s, [x], keep);
    assert [x][1..] == [];
  }

  lemma {:induction false} FilterAll<T(!new)>(s: seq<T>, keep: T -> bool)
    requires forall x :: x in s ==> keep(x)
    ensures Filter(s, keep) == s
  {
    if s != [] { FilterAll(s[1..], keep); }
  }

  lemma {:induction false} FilterNone<T(!new)>(s: seq<T>, keep: T -> bool)
    requires forall x :: x in s ==> !keep(x)
    ensures Filter(s, keep) == []
  {
    if s != [] { FilterNone(s[1..], keep); }
  }

  lemma {:induction false} FilterAgrees<T(!new)>(s: seq<T>, f: T -> bool, g: T -> bool)
    requires forall x :: x in s ==> f(x) == g(x)
    ensures Filter(s, f) == Filter(s, g)
  {
    if s != [] { FilterAgrees(s[1..], f, g); }
  }

  lemma {:induction false} FilterSorted<T(!new)>(s: seq<T>, keep: T -> bool, leq: (T, T) -> bool)
    requires Sorted(s, leq)
    ensures Sorted(Filter(s, keep), leq)
  {
    if s != [] {
      FilterSorted(s[1..], keep, leq);
      assert forall y :: y in Filter(s[1..], keep) ==> leq(s[0], y);
    }
  }

  lemma {:induction false} FilterTieClass<T(!new)>(s: seq<T>, keep: T -> bool, x: T, leq: (T, T) -> bool)
    ensures TieClass(Filter(s, keep), x, leq) == Filter(TieClass(s, x, leq), keep)
  {
    if s != [] { FilterTieClass(s[1..], keep, x, leq); }
  }

  /** Filtering a sorted list is sorting the filtered list. */
  lemma SortFilter<T(!new)>(s: seq<T>, keep: T -> bool, leq: (T, T) -> bool)
    requires TotalPreorder(leq)
    ensures Filter(Sort(s, leq), keep) == Sort(Filter(s, keep), leq)
  {
    SortSorted(s, leq);
    FilterSorted(Sort(s, leq), keep, leq);
    forall x ensures TieClass(Filter(Sort(s, leq), keep), x, leq) == TieClass(Filter(s, keep), x, leq) {
      FilterTieClass(Sort(s, leq), keep, x, leq);
      SortStable(s, x, leq);
      FilterTieClass(s, keep, x, leq);
    }
    StableSortUnique(Filter(s, keep), Filter(Sort(s, leq), keep), leq);
  }

  /** Elements that all tie keep their order. */
  lemma TiedPartStays<T(!new)>(s: seq<T>, keep: T -> bool, leq: (T, T) -> bool)
    requires TotalPreorder(leq) && forall x, y :: keep(x) && keep(y) ==> leq(x, y)
    ensures Filter(Sort(s, leq), keep) == Filter(s, keep)
  {
    SortFilter(s, keep, leq);
    var kept := Filter(s, keep);
    forall i, j | 0 <= i < j < |kept| ensures leq(kept[i], kept[j]) { assert kept[i] in kept && kept[j] in kept; }
    SortedIsSort(kept, leq);
  }

  lemma RemoveSame<T>(a: seq<T>, x: T, b: seq<T>, c: seq<T>)
    requires multiset(a + [x] + b) == multiset([x] + c)
    ensures multiset(a + b) == multiset(c)
  {
    var left, right := multiset(a + b), multiset(c);
    assert multiset(a + [x] + b) == left + multiset{x};
    assert multiset([x] + c) == right + multiset{x};
    assert left == (left + multiset{x}) - multiset{x};
    assert right == (right + multiset{x}) - multiset{x};
  }

  lemma SameMembers<T(!new)>(a: seq<T>, b: seq<T>)
    requires multiset(a) == multiset(b)
    ensures forall x :: x in a <==> x in b
  {
    forall x ensures x in a <==> x in b {
      assert x in a <==> x in multiset(a);
      assert x in b <==> x in multiset(b);
    }
  }

  /** A permutation of a list that starts with `x` is `x` put into one of the rest. */
  lemma PullOut<T(!new)>(other: seq<T>, x: T, rest: seq<T>) returns (before: seq<T>, after: seq<T>)
    requires multiset(other) == multiset([x] + rest)
    ensures other == before + [x] + after
    ensures multiset(before + after) == multiset(rest)
  {
    assert x in multiset([x] + rest);
    assert x in multiset(other);
    var i :| 0 <= i < |other| && other[i] == x;
    before, after := other[..i], other[i + 1..];
    assert other == before + [x] + after;
    RemoveSame(before, x, after, rest);
  }

  // ---- Keys ------------------------------------------------------------------------------

  /** The order of elements by a key. */
  function By<T, K>(key: T -> K, leq: (K, K) -> bool): (T, T) -> bool {
    (l, r) => leq(key(l), key(r))
  }

  lemma ByOrder<T(!new), K(!new)>(key: T -> K, leq: (K, K) -> bool)
    requires TotalPreorder(leq)
    ensures TotalPreorder(By(key, leq))
  {
    var before := By(key, leq);
    forall x, y ensures before(x, y) || before(y, x) { assert leq(key(x), key(y)) || leq(key(y), key(x)); }
    forall x, y, z | before(x, y) && before(y, z) ensures before(x, z) {
      assert leq(key(x), key(y)) && leq(key(y), key(z)) ==> leq(key(x), key(z));
    }
  }

  predicate HasKey<T, K(==)>(s: seq<T>, key: T -> K, k: K) {
    exists i :: 0 <= i < |s| && key(s[i]) == k
  }

  predicate KeysDiffer<T, K(==)>(s: seq<T>, key: T -> K) {
    forall i, j :: 0 <= i < j < |s| ==> key(s[i]) != key(s[j])
  }

  lemma JoinedHasKey<T, K>(a: seq<T>, b: seq<T>, key: T -> K, k: K)
    ensures HasKey(a + b, key, k) <==> HasKey(a, key, k) || HasKey(b, key, k)
  {
    if i :| 0 <= i < |a| && key(a[i]) == k { assert (a + b)[i] == a[i]; }
    if i :| 0 <= i < |b| && key(b[i]) == k { assert (a + b)[|a| + i] == b[i]; }
  }

  lemma HasKeyOneMore<T, K(!new)>(s: seq<T>, x: T, key: T -> K)
    ensures forall k :: HasKey(s + [x], key, k) <==> HasKey(s, key, k) || key(x) == k
  {
    forall k ensures HasKey(s + [x], key, k) <==> HasKey(s, key, k) || key(x) == k {
      JoinedHasKey(s, [x], key, k);
      assert [x][0] == x;
    }
  }

  /** The first element of every key. */
  function FirstOfEach<T, K(==)>(s: seq<T>, key: T -> K): seq<T> {
    if s == [] then []
    else
      var front, last := FirstOfEach(s[..|s| - 1], key), s[|s| - 1];
      if HasKey(front, key, key(last)) then front else front + [last]
  }

  lemma FirstOfEachStep<T, K>(s: seq<T>, x: T, key: T -> K)
    ensures FirstOfEach(s + [x], key)
         == FirstOfEach(s, key) + if HasKey(FirstOfEach(s, key), key, key(x)) then [] else [x]
  {
    assert (s + [x])[..|s|] == s;
  }

  lemma {:induction false} FirstOfEachMeaning<T(!new), K(!new)>(s: seq<T>, key: T -> K)
    ensures forall x :: x in FirstOfEach(s, key) ==> x in s
    ensures forall k :: HasKey(FirstOfEach(s, key), key, k) <==> HasKey(s, key, k)
    ensures KeysDiffer(FirstOfEach(s, key), key)
  {
    if s != [] {
      var front, last := s[..|s| - 1], s[|s| - 1];
      assert s == front + [last];
      FirstOfEachMeaning(front, key);
      FirstOfEachStep(front, last, key);
      HasKeyOneMore(front, last, key);
      HasKeyOneMore(FirstOfEach(front, key), last, key);
    }
  }

  lemma {:induction false} FirstOfEachKeepsAll<T(!new), K(!new)>(s: seq<T>, key: T -> K)
    requires KeysDiffer(s, key)
    ensures FirstOfEach(s, key) == s
  {
    if s != [] {
      var front, last := s[..|s| - 1], s[|s| - 1];
      assert s == front + [last];
      FirstOfEachKeepsAll(front, key);
      FirstOfEachStep(front, last, key);
    }
  }

  lemma KeysDifferDistinct<T(!new), K>(s: seq<T>, key: T -> K)
    requires KeysDiffer(s, key)
    ensures Distinct(s)
  {
  }

  lemma {:induction false} TieClassByKey<T(!new), K(!new)>(s: seq<T>, x: T, key: T -> K, leq: (K, K) -> bool)
    requires TotalPreorder(leq) && Antisymmetric(leq) && KeysDiffer(s, key)
    ensures |TieClass(s, x, By(key, leq))| <= 1
    ensures forall y :: y in TieClass(s, x, By(key, leq)) <==> y in s && key(y) == key(x)
  {
    if s != [] {
      TieClassByKey(s[1..], x, key, leq);
      assert s == [s[0]] + s[1..];
      assert Tied(x, s[0], By(key, leq)) <==> key(s[0]) == key(x);
      if key(s[0]) == key(x) {
        forall i | 0 <= i < |s[1..]| ensures !Tied(x, s[1..][i], By(key, leq)) {
          assert key(s[1..][i]) == key(s[i + 1]) != key(s[0]);
        }
        TieClassEmpty(s[1..], x, By(key, leq));
      }
    }
  }

  /** With distinct keys and no ties between them, the order the elements came in is lost. */
  lemma SameMembersSameSort<T(!new), K(!new)>(a: seq<T>, b: seq<T>, key: T -> K, leq: (K, K) -> bool)
    requires TotalPreorder(leq) && Antisymmetric(leq) && KeysDiffer(a, key) && KeysDiffer(b, key)
    requires forall x :: x in a <==> x in b
    ensures Sort(a, By(key, leq)) == Sort(b, By(key, leq))
  {
    forall x ensures TieClass(a, x, By(key, leq)) == TieClass(b, x, By(key, leq)) {
      TieClassByKey(a, x, key, leq);
      TieClassByKey(b, x, key, leq);
      SmallSeqsEqual(TieClass(a, x, By(key, leq)), TieClass(b, x, By(key, leq)));
    }
    ByOrder(key, leq);
    SameTiesSameSort(a, b, By(key, leq));
  }

  lemma SmallSeqsEqual<T(!new)>(c: seq<T>, d: seq<T>)
    requires |c| <= 1 && |d| <= 1 && forall e :: e in c <==> e in d
    ensures c == d
  {
    assert c == [] || c[0] in d;
    assert d == [] || d[0] in c;
  }

  lemma {:induction false} PermutationKeepsKeysDifferent<T(!new), K>(s: seq<T>, r: seq<T>, key: T -> K)
    requires KeysDiffer(s, key) && multiset(r) == multiset(s)
    ensures KeysDiffer(r, key)
  {
    SameMembers(s, r);
    KeysDifferDistinct(s, key);
    DistinctCopies(s);
    DistinctCopies(r);
    forall i, j | 0 <= i < j < |r| ensures key(r[i]) != key(r[j]) {
      assert r[i] in s && r[j] in s && r[i] != r[j];
      var m :| 0 <= m < |s| && s[m] == r[i];
      var n :| 0 <= n < |s| && s[n] == r[j];
    }
  }

  lemma {:induction false} SortKeepsKeysDifferent<T(!new), K>(s: seq<T>, key: T -> K, leq: (T, T) -> bool)
    requires KeysDiffer(s, key)
    ensures KeysDiffer(Sort(s, leq), key)
    ensures forall x :: x in Sort(s, leq) <==> x in s
  {
    SortMultiset(s, leq);
    SortMembers(s, leq);
    PermutationKeepsKeysDifferent(s, Sort(s, leq), key);
  }

  lemma {:induction false} SortKeysDifferIff<T(!new), K>(s: seq<T>, key: T -> K, leq: (T, T) -> bool)
    ensures KeysDiffer(Sort(s, leq), key) <==> KeysDiffer(s, key)
  {
    SortMultiset(s, leq);
    if KeysDiffer(s, key) {
      PermutationKeepsKeysDifferent(s, Sort(s, leq), key);
    } else if KeysDiffer(Sort(s, leq), key) {
      PermutationKeepsKeysDifferent(Sort(s, leq), s, key);
    }
  }

  // ---- Distinct elements -------------------------------------------------------------------

  ghost predicate Distinct<T(!new)>(s: seq<T>) {
    forall i, j :: 0 <= i < j < |s| ==> s[i] != s[j]
  }

  lemma {:induction false} DistinctCopies<T(!new)>(s: seq<T>)
    ensures Distinct(s) <==> forall x :: multiset(s)[x] <= 1
  {
    if s != [] {
      DistinctCopies(s[1..]);
      assert s == [s[0]] + s[1..];
      assert multiset(s)[s[0]] == 1 + multiset(s[1..])[s[0]];
      if s[0] in s[1..] {
        assert s[0] in multiset(s[1..]);
        assert multiset(s)[s[0]] > 1;
      } else {
        assert Distinct(s) <==> Distinct(s[1..]);
        assert s[0] !in multiset(s[1..]);
        forall x ensures multiset(s)[x] <= 1 <==> multiset(s[1..])[x] <= 1 {}
      }
    }
  }

  lemma SortDistinct<T(!new)>(s: seq<T>, leq: (T, T) -> bool)
    ensures Distinct(Sort(s, leq)) <==> Distinct(s)
  {
    SortMultiset(s, leq);
    DistinctCopies(s);
    DistinctCopies(Sort(s, leq));
  }

  /** `<=` on strings: by code unit, a proper prefix first. */
  predicate TextLeq(a: string, b: string) {
    a == [] || (b != [] && (a[0] < b[0] || (a[0] == b[0] && TextLeq(a[1..], b[1..]))))
  }

  /** Where two strings first differ, the left one has the smaller unit. */
  ghost predicate SmallerAt(a: string, b: string, i: int) {
    0 <= i < |a| && i < |b| && a[..i] == b[..i] && a[i] < b[i]
  }

  lemma SmallerBehind(a: string, b: string, i: int)
    requires a != [] && b != [] && a[0] == b[0]
    ensures SmallerAt(a, b, i) <==> i > 0 && SmallerAt(a[1..], b[1..], i - 1)
  {
    if 0 < i <= |a| && i <= |b| {
      assert a[..i] == [a[0]] + a[1..][..i - 1] && b[..i] == [b[0]] + b[1..][..i - 1];
      assert a[..i][1..] == a[1..][..i - 1] && b[..i][1..] == b[1..][..i - 1];
    }
  }

  /** That is: the left string begins the right one, or has the smaller unit where they first
      differ. */
  lemma {:induction false} TextLeqMeaning(a: string, b: string)
    ensures TextLeq(a, b) <==> a <= b || exists i :: SmallerAt(a, b, i)
  {
    if a != [] && b != [] && a[0] == b[0] {
      TextLeqMeaning(a[1..], b[1..]);
      assert a <= b <==> a[1..] <= b[1..];
      if i :| SmallerAt(a, b, i) { SmallerBehind(a, b, i); }
      if i :| SmallerAt(a[1..], b[1..], i) { SmallerBehind(a, b, i + 1); }
    } else if a != [] && b != [] {
      assert a[0] < b[0] ==> SmallerAt(a, b, 0);
      if i :| SmallerAt(a, b, i) && i > 0 { assert a[..i][0] == b[..i][0]; }
    }
  }

  lemma {:induction false} TextLeqTotal(a: string, b: string)
    ensures TextLeq(a, b) || TextLeq(b, a)
    ensures TextLeq(a, b) && TextLeq(b, a) ==> a == b
  {
    if a != [] && b != [] {
      TextLeqTotal(a[1..], b[1..]);
      if a[0] == b[0] && a[1..] == b[1..] { assert a == [a[0]] + a[1..] == b; }
    }
  }

  lemma {:induction false} TextLeqTransitive(a: string, b: string, c: string)
    requires TextLeq(a, b) && TextLeq(b, c)
    ensures TextLeq(a, c)
  {
    if a != [] && a[0] == b[0] == c[0] {
      TextLeqTransitive(a[1..], b[1..], c[1..]);
    }
  }

  /** The default string order is a total order. */
  lemma TextOrder()
    ensures TotalPreorder(TextLeq) && Antisymmetric(TextLeq)
  {
    forall x, y ensures (TextLeq(x, y) || TextLeq(y, x)) && (TextLeq(x, y) && TextLeq(y, x) ==> x == y) {
      TextLeqTotal(x, y);
    }
    forall x, y, z | TextLeq(x, y) && TextLeq(y, z) ensures TextLeq(x, z) {
      TextLeqTransitive(x, y, z);
    }
  }
}
