/** The content workspace of the admin: the newest activity and the queue of decks that
    still need work. */
module Workspace {
  import opened Types
  import opened Sorting
  import opened EditorialSchema
  import opened Numerals

  // ---- Recent activity ---------------------------------------------------------------------

  datatype Kind = Edit | Validation | Upload | Release

  datatype Item = Item(id: string, kind: Kind, detail: string, at: string)

  datatype Draft = Draft(id: string, revision: nat, updatedAt: string)

  datatype Asset = Asset(id: string, entityContentKey: string, updatedAt: string)

  datatype Run = Run(
    id: string, contentVersion: string, finishedAt: Option<string>, startedAt: Option<string>, createdAt: string)

  type Collation = (string, string) -> bool

  function DraftItem(d: Draft): Item {
    Item("draft-" + d.id + "-" + Decimal(d.revision), Edit, "Revision " + Decimal(d.revision), d.updatedAt)
  }

  /** `report` is the time of the validation report, if there is one, with its finding text. */
  function ReportItem(validatedAt: string, detail: string): Item {
    Item("validation-" + validatedAt, Validation, detail, validatedAt)
  }

  function AssetItem(a: Asset): Item {
    Item("asset-" + a.id, Upload, a.entityContentKey, a.updatedAt)
  }

  function RunItem(r: Run): Item {
    Item("run-" + r.id, Release, r.contentVersion,
         if r.finishedAt.Some? then r.finishedAt.value
         else if r.startedAt.Some? then r.startedAt.value
         else r.createdAt)
  }

  function AssetItems(assets: seq<Asset>): (r: seq<Item>)
    ensures |r| == |assets|
    ensures forall i :: 0 <= i < |assets| ==> r[i] == AssetItem(assets[i])
  {
    if assets == [] then [] else [AssetItem(assets[0])] + AssetItems(assets[1..])
  }

  function RunItems(runs: seq<Option<Run>>): seq<Item> {
    if runs == [] then []
    else (if runs[0].Some? then [RunItem(runs[0].value)] else []) + RunItems(runs[1..])
  }

  function Take<T>(s: seq<T>, n: nat): seq<T> {
    if n <= |s| then s[..n] else s
  }

  function IdOf(item: Item): string {
    item.id
  }

  function AssetIdOf(a: Asset): string {
    a.id
  }

  function TimeOf(item: Item): string {
    item.at
  }

  function AssetTimeOf(a: Asset): string {
    a.updatedAt
  }

  function Reversed<K>(leq: (K, K) -> bool): (K, K) -> bool {
    (l, r) => leq(r, l)
  }

  /** Newest first; `collate` stands for `localeCompare` on the times. */
  function Newest(collate: Collation): (Item, Item) -> bool {
    By(TimeOf, Reversed(collate))
  }

  function NewestAsset(collate: Collation): (Asset, Asset) -> bool {
    By(AssetTimeOf, Reversed(collate))
  }

  /** Everything there is to show, and what is shown of it. */
  function Latest(head: seq<Item>, uploads: seq<Item>, runs: seq<Item>, limit: nat, collate: Collation): seq<Item> {
    Take(Sort(FirstOfEach(head + uploads + runs, IdOf), Newest(collate)), limit)
  }

  function Head(draft: Draft, report: Option<(string, string)>): seq<Item> {
    [DraftItem(draft)] + if report.Some? then [ReportItem(report.value.0, report.value.1)] else []
  }

  /** Of everything, `shown` is the newest, newest first, each id once and the first item with it;
      equally old items keep their order; `left` is the rest, and there is none while there is room. */
  ghost predicate ShowsNewest(shown: seq<Item>, left: seq<Item>, all: seq<Item>, limit: nat, collate: Collation) {
    && |shown| <= limit && (left != [] ==> |shown| == limit)
    && (forall i, j :: 0 <= i < j < |shown| ==> collate(shown[j].at, shown[i].at))
    && (forall x, y :: x in shown && y in left ==> collate(y.at, x.at))
    && multiset(shown + left) == multiset(FirstOfEach(all, IdOf))
    && forall at :: AllAsOld(shown + left, at, collate) == AllAsOld(FirstOfEach(all, IdOf), at, collate)
  }

  /** The items that collate with this time, in order. */
  ghost function AllAsOld(items: seq<Item>, at: string, collate: Collation): seq<Item> {
    Filter(items, (x: Item) => collate(x.at, at) && collate(at, x.at))
  }

  lemma NewestIs(x: Item, y: Item, collate: Collation)
    ensures Newest(collate)(x, y) <==> collate(y.at, x.at)
  {
    assert TimeOf(x) == x.at && TimeOf(y) == y.at;
    assert Reversed(collate)(x.at, y.at) == collate(y.at, x.at);
  }

  lemma NewestSorted(s: seq<Item>, n: nat, collate: Collation)
    requires Sorted(s, Newest(collate)) && n <= |s|
    ensures forall i, j :: 0 <= i < j < n ==> collate(s[..n][j].at, s[..n][i].at)
    ensures forall x, y :: x in s[..n] && y in s[n..] ==> collate(y.at, x.at)
  {
    forall i, j | 0 <= i < j < |s| ensures collate(s[j].at, s[i].at) {
      assert Newest(collate)(s[i], s[j]);
      NewestIs(s[i], s[j], collate);
    }
  }

  lemma SameAgeKeepsOrder(items: seq<Item>, at: string, collate: Collation)
    requires TotalPreorder(collate)
    ensures AllAsOld(Sort(items, Newest(collate)), at, collate) == AllAsOld(items, at, collate)
  {
    var keep := (x: Item) => collate(x.at, at) && collate(at, x.at);
    ByOrder(TimeOf, Reversed(collate));
    forall x, y | keep(x) && keep(y) ensures Newest(collate)(x, y) {
      assert collate(y.at, at) && collate(at, x.at);
      NewestIs(x, y, collate);
    }
    TiedPartStays(items, keep, Newest(collate));
  }

  lemma LatestIsNewest(all: seq<Item>, limit: nat, collate: Collation) returns (left: seq<Item>)
    requires TotalPreorder(collate)
    ensures ShowsNewest(Take(Sort(FirstOfEach(all, IdOf), Newest(collate)), limit), left, all, limit, collate)
  {
    var first := FirstOfEach(all, IdOf);
    var sorted := Sort(first, Newest(collate));
    var n := |Take(sorted, limit)|;
    left := sorted[n..];
    assert Take(sorted, limit) == sorted[..n] && sorted[..n] + left == sorted;
    ByOrder(TimeOf, Reversed(collate));
    SortSorted(first, Newest(collate));
    SortMultiset(first, Newest(collate));
    NewestSorted(sorted, n, collate);
    forall at ensures AllAsOld(sorted, at, collate) == AllAsOld(first, at, collate) {
      SameAgeKeepsOrder(first, at, collate);
    }
  }

  /** The run was last heard of when it finished; if it has not, when it started; else when it was
      made. */
  ghost predicate LastHeardOf(r: Run, at: string) {
    && (r.finishedAt.Some? ==> at == r.finishedAt.value)
    && (r.finishedAt.None? && r.startedAt.Some? ==> at == r.startedAt.value)
    && (r.finishedAt.None? && r.startedAt.None? ==> at == r.createdAt)
  }

  /** The item tells of the draft, its report, one of the assets or one of the runs. */
  ghost predicate Tells(x: Item, draft: Draft, report: Option<(string, string)>, assets: seq<Asset>,
                        runs: seq<Option<Run>>) {
    match x.kind
    case Edit =>
      && x.at == draft.updatedAt && x.id == "draft-" + draft.id + "-" + Decimal(draft.revision)
      && x.detail == "Revision " + Decimal(draft.revision)
    case Validation =>
      report.Some? && x.at == report.value.0 && x.id == "validation-" + report.value.0 && x.detail == report.value.1
    case Upload =>
      exists a: Asset :: a in assets && x.at == a.updatedAt && x.id == "asset-" + a.id && x.detail == a.entityContentKey
    case Release =>
      exists r: Run :: Some(r) in runs && LastHeardOf(r, x.at) && x.id == "run-" + r.id && x.detail == r.contentVersion
  }

  lemma {:induction false} RunItemsTell(x: Item, draft: Draft, report: Option<(string, string)>, assets: seq<Asset>,
                                        runs: seq<Option<Run>>)
    requires x in RunItems(runs)
    ensures x.kind == Release && Tells(x, draft, report, assets, runs)
  {
    if runs[0].Some? && x == RunItem(runs[0].value) {
      assert runs[0] in runs && LastHeardOf(runs[0].value, x.at);
    } else {
      RunItemsTell(x, draft, report, assets, runs[1..]);
    }
  }

  lemma ItemsTell(x: Item, draft: Draft, report: Option<(string, string)>, assets: seq<Asset>, recent: seq<Asset>,
                  runs: seq<Option<Run>>)
    requires x in Head(draft, report) + AssetItems(recent) + RunItems(runs)
    requires forall a :: a in recent ==> a in assets
    ensures Tells(x, draft, report, assets, runs)
  {
    if x in RunItems(runs) {
      RunItemsTell(x, draft, report, assets, runs);
    } else if x in AssetItems(recent) {
      var i :| 0 <= i < |recent| && AssetItems(recent)[i] == x;
      assert recent[i] in assets;
    }
  }

  method RecentActivity(draft: Draft, report: Option<(string, string)>, assets: seq<Asset>, current: Option<Run>,
                        last: Option<Run>, limit: nat, collate: Collation)
    returns (shown: seq<Item>)
    ensures shown == Latest(Head(draft, report), AssetItems(Take(Sort(assets, NewestAsset(collate)), limit)),
                            RunItems([current, last]), limit, collate)
    ensures forall x :: x in shown ==> Tells(x, draft, report, assets, [current, last])
    ensures TotalPreorder(collate) && KeysDiffer(assets, AssetIdOf) ==>
              var all := Head(draft, report) + AssetItems(assets) + RunItems([current, last]);
              exists left :: ShowsNewest(shown, left, all, limit, collate)
  {
    var items := [DraftItem(draft)];
    if report.Some? {
      items := items + [ReportItem(report.value.0, report.value.1)];
    }
    assert items == Head(draft, report);
    items := PushUploads(items, Take(Sort(assets, NewestAsset(collate)), limit));
    items := PushRuns(items, [current, last]);
    var kept := Dedupe(items);
    shown := Take(Sort(kept, Newest(collate)), limit);
    ShownTell(shown, draft, report, assets, current, last, limit, collate);
    if TotalPreorder(collate) && KeysDiffer(assets, AssetIdOf) {
      CutUploadsHarmless(draft, report, assets, [current, last], limit, collate);
      var left := LatestIsNewest(Head(draft, report) + AssetItems(assets) + RunItems([current, last]), limit, collate);
    }
  }

  lemma ShownTell(shown: seq<Item>, draft: Draft, report: Option<(string, string)>, assets: seq<Asset>,
                  current: Option<Run>, last: Option<Run>, limit: nat, collate: Collation)
    requires shown == Latest(Head(draft, report), AssetItems(Take(Sort(assets, NewestAsset(collate)), limit)),
                             RunItems([current, last]), limit, collate)
    ensures forall x :: x in shown ==> Tells(x, draft, report, assets, [current, last])
  {
    var recent := Take(Sort(assets, NewestAsset(collate)), limit);
    var all := Head(draft, report) + AssetItems(recent) + RunItems([current, last]);
    SortMembers(assets, NewestAsset(collate));
    FirstOfEachMeaning(all, IdOf);
    SortMembers(FirstOfEach(all, IdOf), Newest(collate));
    forall x | x in shown ensures Tells(x, draft, report, assets, [current, last]) {
      assert x in Sort(FirstOfEach(all, IdOf), Newest(collate));
      ItemsTell(x, draft, report, assets, recent, [current, last]);
    }
  }

  method PushUploads(before: seq<Item>, recent: seq<Asset>) returns (items: seq<Item>)
    ensures items == before + AssetItems(recent)
  {
    items := before;
    ghost var all := AssetItems(recent);
    for n := 0 to |recent|
      invariant items == before + all[..n]
    {
      assert all[..n + 1] == all[..n] + [AssetItem(recent[n])];
      items := items + [AssetItem(recent[n])];
    }
  }

  method PushRuns(before: seq<Item>, runs: seq<Option<Run>>) returns (items: seq<Item>)
    ensures items == before + RunItems(runs)
  {
    items := before;
    for n := 0 to |runs|
      invariant items + RunItems(runs[n..]) == before + RunItems(runs)
    {
      assert runs[n..][1..] == runs[n + 1..];
      if runs[n].Some? {
        items := items + [RunItem(runs[n].value)];
      }
    }
  }

  method Dedupe(items: seq<Item>) returns (kept: seq<Item>)
    ensures kept == FirstOfEach(items, IdOf)
  {
    var seen: set<string> := {};
    kept := [];
    for n := 0 to |items|
      invariant kept == FirstOfEach(items[..n], IdOf)
      invariant forall id :: id in seen <==> HasKey(kept, IdOf, id)
    {
      assert items[..n + 1][..n] == items[..n];
      if items[n].id !in seen {
        HasKeyOneMore(kept, items[n], IdOf);
        kept := kept + [items[n]];
        seen := seen + {items[n].id};
      }
    }
    assert items[..|items|] == items;
  }

  // ---- Cutting the uploads first is harmless --------------------------------------------------

  /** Where one more element goes in a stable sort: behind everything before it in the list
      that does not come after it in the order. */
  lemma {:induction false} OneMoreSorted<T(!new)>(a: seq<T>, u: T, b: seq<T>, leq: (T, T) -> bool)
    returns (p: seq<T>, q: seq<T>)
    requires TotalPreorder(leq)
    ensures Sort(a + [u] + b, leq) == p + [u] + q && Sort(a + b, leq) == p + q
    ensures |p| >= |Filter(a, (x: T) => leq(x, u))|
    ensures (forall x :: x in p ==> leq(x, u)) && (forall x :: x in q ==> leq(u, x))
  {
    if a == [] {
      assert a + [u] + b == [u] + b && a + b == b && ([u] + b)[1..] == b;
      SortSorted(b, leq);
      p, q := InsertSplits(u, Sort(b, leq), leq);
    } else {
      var x, rest := a[0], a[1..];
      var p0, q0 := OneMoreSorted(rest, u, b, leq);
      assert (a + [u] + b)[1..] == rest + [u] + b && (a + b)[1..] == rest + b;
      p, q := InsertAround(x, p0, u, q0, leq);
    }
  }

  /** Inserting `x` into a list that `u` splits puts it before `u` if it does not come after. */
  lemma InsertAround<T(!new)>(x: T, p0: seq<T>, u: T, q0: seq<T>, leq: (T, T) -> bool) returns (p: seq<T>, q: seq<T>)
    requires TotalPreorder(leq)
    requires (forall y :: y in p0 ==> leq(y, u)) && (forall y :: y in q0 ==> leq(u, y))
    ensures Insert(x, p0 + [u] + q0, leq) == p + [u] + q && Insert(x, p0 + q0, leq) == p + q
    ensures |p| == |p0| + if leq(x, u) then 1 else 0
    ensures (forall y :: y in p ==> leq(y, u)) && (forall y :: y in q ==> leq(u, y))
  {
    if leq(x, u) {
      p, q := Insert(x, p0, leq), q0;
      InsertMembers(x, p0, leq);
      assert q0 != [] ==> q0[0] in q0;
      InsertLeft(x, p0, [u] + q0, leq);
      InsertLeft(x, p0, q0, leq);
      assert p0 + [u] + q0 == p0 + ([u] + q0) && p + [u] + q == p + ([u] + q0);
    } else {
      p, q := p0, Insert(x, q0, leq);
      InsertMembers(x, q0, leq);
      forall y | y in p0 + [u] ensures !leq(x, y) { assert y in p0 || y == u; }
      InsertRight(x, p0 + [u], q0, leq);
      InsertRight(x, p0, q0, leq);
    }
  }

  lemma InsertMembers<T(!new)>(x: T, s: seq<T>, leq: (T, T) -> bool)
    ensures forall y :: y in Insert(x, s, leq) <==> y == x || y in s
    ensures |Insert(x, s, leq)| == |s| + 1
  {
    InsertMultiset(x, s, leq);
    var r := Insert(x, s, leq);
    assert |r| == |multiset(r)|;
    forall y ensures y in r <==> y == x || y in s {
      assert y in r <==> y in multiset(r);
    }
  }

  lemma {:induction false} InsertSplits<T(!new)>(u: T, s: seq<T>, leq: (T, T) -> bool) returns (p: seq<T>, q: seq<T>)
    requires TotalPreorder(leq) && Sorted(s, leq)
    ensures Insert(u, s, leq) == p + [u] + q && s == p + q
    ensures (forall x :: x in p ==> leq(x, u)) && (forall x :: x in q ==> leq(u, x))
  {
    if s == [] {
      p, q := [], [];
    } else if leq(u, s[0]) {
      p, q := [], s;
      BeforeAll(u, s, leq);
    } else {
      NotBefore(u, s[0], leq);
      TailSorted(s, leq);
      var p0, q0 := InsertSplits(u, s[1..], leq);
      p, q := [s[0]] + p0, q0;
      assert s == [s[0]] + s[1..];
      InsertBehind(u, s[0], p0, q0, leq);
    }
  }

  lemma {:induction false} InsertBehind<T(!new)>(u: T, x: T, p: seq<T>, q: seq<T>, leq: (T, T) -> bool)
    requires !leq(u, x) && Insert(u, p + q, leq) == p + [u] + q
    ensures Insert(u, [x] + (p + q), leq) == [x] + p + [u] + q && [x] + (p + q) == [x] + p + q
  {
    var s := [x] + (p + q);
    assert s[0] == x && s[1..] == p + q;
    assert Insert(u, s, leq) == [x] + Insert(u, s[1..], leq);
    assert [x] + (p + [u] + q) == [x] + p + [u] + q;
  }

  lemma TailSorted<T(!new)>(s: seq<T>, leq: (T, T) -> bool)
    requires Sorted(s, leq) && s != []
    ensures Sorted(s[1..], leq)
  {
  }

  lemma NotBefore<T(!new)>(u: T, x: T, leq: (T, T) -> bool)
    requires TotalPreorder(leq) && !leq(u, x)
    ensures leq(x, u)
  {
  }

  lemma BeforeAll<T(!new)>(u: T, s: seq<T>, leq: (T, T) -> bool)
    requires TotalPreorder(leq) && Sorted(s, leq) && s != [] && leq(u, s[0])
    ensures forall x :: x in s ==> leq(u, x)
  {
    forall i | 0 <= i < |s| ensures leq(u, s[i]) {
      assert i == 0 || leq(s[0], s[i]);
    }
  }

  /** Insertion stops within `p` or right behind it when `x` comes before all of `q`. */
  lemma {:induction false} InsertLeft<T(!new)>(x: T, p: seq<T>, q: seq<T>, leq: (T, T) -> bool)
    requires q == [] || leq(x, q[0])
    ensures Insert(x, p + q, leq) == Insert(x, p, leq) + q
  {
    if p == [] {
      assert p + q == q;
    } else if !leq(x, p[0]) {
      assert (p + q)[1..] == p[1..] + q;
      InsertLeft(x, p[1..], q, leq);
    }
  }

  /** Insertion passes over everything `x` does not come before. */
  lemma {:induction false} InsertRight<T(!new)>(x: T, p: seq<T>, q: seq<T>, leq: (T, T) -> bool)
    requires forall y :: y in p ==> !leq(x, y)
    ensures Insert(x, p + q, leq) == p + Insert(x, q, leq)
  {
    if p == [] {
      assert p + q == q;
    } else {
      assert (p + q)[1..] == p[1..] + q;
      InsertRight(x, p[1..], q, leq);
    }
  }

  /** What comes after `n` others, in the list and in the order, is not among the first `n`. */
  lemma {:induction false} DropLate<T(!new)>(a: seq<T>, t: seq<T>, u: seq<T>, b: seq<T>, leq: (T, T) -> bool)
    requires TotalPreorder(leq) && forall x, y :: x in t && y in u ==> leq(x, y)
    ensures Take(Sort(a + t + u + b, leq), |t|) == Take(Sort(a + t + b, leq), |t|)
    decreases |u|
  {
    if u == [] {
      assert a + t + u + b == a + t + b;
    } else {
      var front, last := u[..|u| - 1], u[|u| - 1];
      assert u == front + [last];
      assert a + t + u + b == (a + t + front) + [last] + b;
      var p, q := OneMoreSorted(a + t + front, last, b, leq);
      var before := (x: T) => leq(x, last);
      FilterConcat(a + t, front, before);
      FilterConcat(a, t, before);
      assert last in u;
      FilterAll(t, before);
      assert (p + [last] + q)[..|t|] == p[..|t|] == (p + q)[..|t|];
      DropLate(a, t, front, b, leq);
    }
  }

  lemma SortedParts<T(!new)>(s: seq<T>, n: nat, leq: (T, T) -> bool)
    requires Sorted(s, leq) && n <= |s|
    ensures forall x, y :: x in s[..n] && y in s[n..] ==> leq(x, y)
  {
    forall x, y | x in s[..n] && y in s[n..] ensures leq(x, y) {
      var i :| 0 <= i < n && s[i] == x;
      var j :| n <= j < |s| && s[j] == y;
    }
  }

  /** The first `n` of a list need, of any stretch of it, only that stretch's first `n`. */
  lemma CutFirst<T(!new)>(a: seq<T>, s: seq<T>, b: seq<T>, n: nat, leq: (T, T) -> bool)
    requires TotalPreorder(leq)
    ensures Take(Sort(a + Take(Sort(s, leq), n) + b, leq), n) == Take(Sort(a + s + b, leq), n)
  {
    var sorted := Sort(s, leq);
    PresortedPart(a, s, b, leq);
    if n <= |sorted| {
      SortSorted(s, leq);
      CutSorted(a, sorted, b, n, leq);
    }
  }

  lemma {:induction false} CutSorted<T(!new)>(a: seq<T>, s: seq<T>, b: seq<T>, n: nat, leq: (T, T) -> bool)
    requires TotalPreorder(leq) && Sorted(s, leq) && n <= |s|
    ensures Take(Sort(a + s[..n] + b, leq), n) == Take(Sort(a + s + b, leq), n)
  {
    SortedParts(s, n, leq);
    assert s == s[..n] + s[n..];
    CutParts(a, s[..n], s[n..], b, leq);
  }

  lemma {:induction false} CutParts<T(!new)>(a: seq<T>, t: seq<T>, u: seq<T>, b: seq<T>, leq: (T, T) -> bool)
    requires TotalPreorder(leq) && forall x, y :: x in t && y in u ==> leq(x, y)
    ensures Take(Sort(a + t + b, leq), |t|) == Take(Sort(a + (t + u) + b, leq), |t|)
  {
    assert a + (t + u) + b == a + t + u + b;
    DropLate(a, t, u, b, leq);
  }

  lemma {:induction false} DedupeKeeps(items: seq<Item>, more: seq<Item>)
    requires KeysDiffer(items, IdOf) && forall i :: 0 <= i < |more| ==> !HasKey(items, IdOf, more[i].id)
    ensures FirstOfEach(items + more, IdOf) == items + FirstOfEach(more, IdOf)
  {
    if more == [] {
      assert items + more == items;
      FirstOfEachKeepsAll(items, IdOf);
    } else {
      var front, last := more[..|more| - 1], more[|more| - 1];
      DedupeKeeps(items, front);
      assert (items + more)[..|items + more| - 1] == items + front;
      assert (items + more)[|items + more| - 1] == last;
      JoinedHasKey(items, FirstOfEach(front, IdOf), IdOf, last.id);
    }
  }

  lemma UploadIdsDiffer(draft: Draft, report: Option<(string, string)>, assets: seq<Asset>)
    requires KeysDiffer(assets, AssetIdOf)
    ensures KeysDiffer(Head(draft, report) + AssetItems(assets), IdOf)
  {
    var head: seq<Item> := Head(draft, report);
    var uploads: seq<Item> := AssetItems(assets);
    forall i, j | 0 <= i < j < |uploads| ensures uploads[i].id != uploads[j].id {
      SamePrefix("asset-", assets[i].id, assets[j].id);
    }
    assert head[0].id[0] == 'd' && (|head| > 1 ==> head[1].id[0] == 'v');
    forall i | 0 <= i < |uploads| ensures uploads[i].id[0] == 'a' {
      assert uploads[i].id == "asset-" + assets[i].id;
    }
    forall i, j | 0 <= i < |head| && 0 <= j < |uploads| ensures head[i].id != uploads[j].id {
      assert head[i].id[0] != uploads[j].id[0];
    }
    JoinedIdsDiffer(head, uploads);
  }

  lemma JoinedIdsDiffer(a: seq<Item>, b: seq<Item>)
    requires KeysDiffer(a, IdOf) && KeysDiffer(b, IdOf)
    requires forall i, j :: 0 <= i < |a| && 0 <= j < |b| ==> a[i].id != b[j].id
    ensures KeysDiffer(a + b, IdOf)
  {
  }

  lemma SamePrefix(p: string, x: string, y: string)
    ensures p + x == p + y <==> x == y
  {
    assert (p + x)[|p|..] == x && (p + y)[|p|..] == y;
  }

  lemma {:induction false} InsertAssetItem(a: Asset, s: seq<Asset>, collate: Collation)
    ensures Insert(AssetItem(a), AssetItems(s), Newest(collate)) == AssetItems(Insert(a, s, NewestAsset(collate)))
  {
    if s != [] {
      AssetItemOrder(a, s[0], collate);
      if !NewestAsset(collate)(a, s[0]) {
        InsertAssetItem(a, s[1..], collate);
        assert AssetItems(s)[1..] == AssetItems(s[1..]);
      }
    }
  }

  lemma AssetItemOrder(a: Asset, b: Asset, collate: Collation)
    ensures Newest(collate)(AssetItem(a), AssetItem(b)) == NewestAsset(collate)(a, b)
  {
    assert TimeOf(AssetItem(a)) == AssetTimeOf(a) && TimeOf(AssetItem(b)) == AssetTimeOf(b);
  }

  lemma {:induction false} SortAssetItems(assets: seq<Asset>, collate: Collation)
    ensures Sort(AssetItems(assets), Newest(collate)) == AssetItems(Sort(assets, NewestAsset(collate)))
  {
    if assets != [] {
      SortAssetItems(assets[1..], collate);
      assert AssetItems(assets)[1..] == AssetItems(assets[1..]);
      InsertAssetItem(assets[0], Sort(assets[1..], NewestAsset(collate)), collate);
    }
  }

  lemma DedupeBehindUploads(draft: Draft, report: Option<(string, string)>, assets: seq<Asset>, runs: seq<Option<Run>>)
    requires KeysDiffer(assets, AssetIdOf)
    ensures FirstOfEach(Head(draft, report) + AssetItems(assets) + RunItems(runs), IdOf)
         == Head(draft, report) + AssetItems(assets) + FirstOfEach(RunItems(runs), IdOf)
  {
    UploadIdsDiffer(draft, report, assets);
    var before, behind := Head(draft, report) + AssetItems(assets), RunItems(runs);
    forall n | 0 <= n < |behind| ensures !HasKey(before, IdOf, behind[n].id) {
      assert behind[n] in behind;
      RunIds(runs);
      RunIdUnseen(draft, report, assets, behind[n].id);
    }
    DedupeKeeps(before, behind);
  }

  lemma RunIdUnseen(draft: Draft, report: Option<(string, string)>, assets: seq<Asset>, id: string)
    requires id != [] && id[0] == 'r'
    ensures !HasKey(Head(draft, report) + AssetItems(assets), IdOf, id)
  {
    var before := Head(draft, report) + AssetItems(assets);
    forall i | 0 <= i < |before| ensures IdOf(before[i])[0] != 'r' {
      if i >= |Head(draft, report)| {
        assert before[i] == AssetItem(assets[i - |Head(draft, report)|]);
      }
    }
  }

  lemma LatestOfUploads(draft: Draft, report: Option<(string, string)>, assets: seq<Asset>, runs: seq<Option<Run>>,
                        limit: nat, collate: Collation)
    requires KeysDiffer(assets, AssetIdOf)
    ensures Latest(Head(draft, report), AssetItems(assets), RunItems(runs), limit, collate)
         == Take(Sort(Head(draft, report) + AssetItems(assets) + FirstOfEach(RunItems(runs), IdOf), Newest(collate)),
                 limit)
  {
    DedupeBehindUploads(draft, report, assets, runs);
  }

  lemma {:induction false} RunIds(runs: seq<Option<Run>>)
    ensures forall x :: x in RunItems(runs) ==> |x.id| > 0 && x.id[0] == 'r'
  {
    if runs != [] { RunIds(runs[1..]); }
  }

  lemma CutUploads(assets: seq<Asset>, limit: nat, collate: Collation)
    requires KeysDiffer(assets, AssetIdOf)
    ensures KeysDiffer(Take(Sort(assets, NewestAsset(collate)), limit), AssetIdOf)
    ensures AssetItems(Take(Sort(assets, NewestAsset(collate)), limit))
         == Take(Sort(AssetItems(assets), Newest(collate)), limit)
  {
    var sorted := Sort(assets, NewestAsset(collate));
    var cut := Take(sorted, limit);
    SortKeepsKeysDifferent(assets, AssetIdOf, NewestAsset(collate));
    SortAssetItems(assets, collate);
    assert forall i :: 0 <= i < |cut| ==> cut[i] == sorted[i];
    assert AssetItems(cut) == Take(AssetItems(sorted), limit);
  }

  /** The uploads that are cut before merging could not have been shown: with distinct
      asset ids the result is the newest `limit` of all there is. */
  lemma CutUploadsHarmless(draft: Draft, report: Option<(string, string)>, assets: seq<Asset>, runs: seq<Option<Run>>,
                           limit: nat, collate: Collation)
    requires TotalPreorder(collate) && KeysDiffer(assets, AssetIdOf)
    ensures Latest(Head(draft, report), AssetItems(Take(Sort(assets, NewestAsset(collate)), limit)), RunItems(runs),
                   limit, collate)
         == Latest(Head(draft, report), AssetItems(assets), RunItems(runs), limit, collate)
  {
    var head, sorted := Head(draft, report), Sort(assets, NewestAsset(collate));
    var cut, kept := Take(sorted, limit), FirstOfEach(RunItems(runs), IdOf);
    CutUploads(assets, limit, collate);
    LatestOfUploads(draft, report, cut, runs, limit, collate);
    LatestOfUploads(draft, report, assets, runs, limit, collate);
    ByOrder(TimeOf, Reversed(collate));
    CutFirst(head, AssetItems(assets), kept, limit, Newest(collate));
  }

  // ---- The work queue ------------------------------------------------------------------------------

  datatype DraftEntity = DraftEntity(
    key: string, includeInCountryCatalog: bool, status: string, hasFlag: Option<bool>, hasCoatOfArms: Option<bool>)

  datatype MembersMode = ExplicitMode | AllCurrentMode | TaxonomyMode

  datatype DraftDeck = DraftDeck(
    key: string, mode: MembersMode, members: seq<CardRef>, memberCount: nat,
    defaultTemplateCode: Option<string>, defaultTemplateSchemaVersion: Option<nat>)

  datatype Readiness = ReadyDeck | Warning | Blocked | Unresolved

  /** The counts are of a resolved deck; `completeness` and `ready` are None for the rest. */
  datatype WorkQueueItem = WorkQueueItem(
    deckKey: string, cardCount: nat, ready: Option<int>, completeness: Option<int>,
    missingFlags: nat, missingCoats: nat, unknownMembers: nat, readiness: Readiness)

  function Default(deck: DraftDeck, entityKey: string): CardVariant {
    CardVariant(
      entityKey,
      if deck.defaultTemplateCode.Some? then deck.defaultTemplateCode.value else DEFAULT_TEMPLATE_CODE,
      if deck.defaultTemplateSchemaVersion.Some? then deck.defaultTemplateSchemaVersion.value
      else DEFAULT_TEMPLATE_SCHEMA_VERSION)
  }

  function RefOf(deck: DraftDeck, member: CardRef): CardVariant {
    match member case Bare(key) => Default(deck, key) case Explicit(card) => card
  }

  function Refs(deck: DraftDeck, members: seq<CardRef>): seq<CardVariant> {
    seq(|members|, i requires 0 <= i < |members| => RefOf(deck, members[i]))
  }

  function Current(entities: seq<DraftEntity>): seq<DraftEntity> {
    Filter(entities, (e: DraftEntity) => e.includeInCountryCatalog && e.status == "active")
  }

  function ResolveMembers(deck: DraftDeck, entities: seq<DraftEntity>): Option<seq<CardVariant>> {
    match deck.mode
    case ExplicitMode => Some(Refs(deck, deck.members))
    case AllCurrentMode =>
      var all := Current(entities);
      Some(seq(|all|, i requires 0 <= i < |all| => Default(deck, all[i].key)))
    case TaxonomyMode => None
  }

  datatype Standing = Drawn | NoFlag | NoCoat | Unknown

  type ByKey = map<string, DraftEntity>

  function IndexEntities(entities: seq<DraftEntity>): ByKey {
    if entities == [] then map[]
    else IndexEntities(entities[..|entities| - 1])[entities[|entities| - 1].key := entities[|entities| - 1]]
  }

  /** Entity `n` is the last with this key. */
  ghost predicate KeyedLast(entities: seq<DraftEntity>, n: int, key: string) {
    0 <= n < |entities| && entities[n].key == key && forall m :: n < m < |entities| ==> entities[m].key != key
  }

  lemma {:induction false} IndexIsLast(entities: seq<DraftEntity>, key: string)
    ensures key in IndexEntities(entities) <==> exists n :: KeyedLast(entities, n, key)
    ensures forall n :: KeyedLast(entities, n, key) ==> IndexEntities(entities)[key] == entities[n]
  {
    if entities != [] {
      var last := |entities| - 1;
      var front := entities[..last];
      IndexIsLast(front, key);
      assert forall n :: 0 <= n < last ==> front[n] == entities[n];
      if entities[last].key == key {
        assert KeyedLast(entities, last, key);
      } else {
        forall n ensures KeyedLast(front, n, key) <==> KeyedLast(entities, n, key) {}
      }
    }
  }

  /** The deck as the pipeline knows it: what it declares as its default. */
  ghost predicate SameDefaults(deck: DraftDeck, d: Deck) {
    && d.defaultTemplateCode == deck.defaultTemplateCode
    && d.defaultTemplateSchemaVersion == deck.defaultTemplateSchemaVersion
  }

  /** The queue counts the cards the pipeline would ask for: an explicit deck's own members, or the
      listed active entities in their order, each as the card it stands for. */
  lemma MembersAreTaught(deck: DraftDeck, entities: seq<DraftEntity>, d: Deck)
    requires SameDefaults(deck, d)
    ensures deck.mode.TaxonomyMode? <==> ResolveMembers(deck, entities).None?
    ensures deck.mode.ExplicitMode? ==>
              var cards := ResolveMembers(deck, entities).value;
              && |cards| == |deck.members|
              && forall i :: 0 <= i < |cards| ==> cards[i] == CardVariantRef(d, deck.members[i])
    ensures deck.mode.AllCurrentMode? ==>
              var cards := ResolveMembers(deck, entities).value;
              var all := Filter(entities, (e: DraftEntity) => e.includeInCountryCatalog && e.status == "active");
              && |cards| == |all|
              && forall i :: 0 <= i < |cards| ==> cards[i] == CardVariantRef(d, Bare(all[i].key))
  {
  }

  /** Where one card stands; a drawing nobody has said anything about is not missing. */
  function StandingOf(byKey: ByKey, card: CardVariant): Standing {
    if card.entityKey !in byKey then Unknown
    else
      var e := byKey[card.entityKey];
      if card.templateCode == "FLAG_TO_COUNTRY" && e.hasFlag == Some(false) then NoFlag
      else if card.templateCode == "COAT_OF_ARMS_TO_COUNTRY" && e.hasCoatOfArms == Some(false) then NoCoat
      else Drawn
  }

  function Count(byKey: ByKey, cards: seq<CardVariant>, standing: Standing): nat {
    if cards == [] then 0
    else
      Count(byKey, cards[..|cards| - 1], standing)
      + if StandingOf(byKey, cards[|cards| - 1]) == standing then 1 else 0
  }

  /** `Math.round(ready / total * 100)`. */
  function Percentage(ready: int, total: nat): int
    requires total > 0
  {
    (200 * ready + total) / (2 * total)
  }

  /** A taxonomy deck is not resolved here: only its size is known. */
  function UnresolvedItem(deck: DraftDeck): WorkQueueItem {
    WorkQueueItem(deck.key, deck.memberCount, None, None, 0, 0, 0, Unresolved)
  }

  /** A taxonomy deck's item says how many members it has; any other accounts for its cards. */
  ghost predicate IsItemOf(item: WorkQueueItem, deck: DraftDeck, entities: seq<DraftEntity>) {
    if deck.mode.TaxonomyMode? then item == WorkQueueItem(deck.key, deck.memberCount, None, None, 0, 0, 0, Unresolved)
    else item.deckKey == deck.key && Accounts(item, IndexEntities(entities), ResolveMembers(deck, entities).value)
  }

  method QueueItem(deck: DraftDeck, entities: seq<DraftEntity>, byKey: ByKey) returns (item: WorkQueueItem)
    requires byKey == IndexEntities(entities)
    ensures IsItemOf(item, deck, entities)
  {
    var members := ResolveMembers(deck, entities);
    if members.None? {
      return UnresolvedItem(deck);
    }
    var cards := members.value;
    var missingFlags, missingCoats, unknownMembers := CountMissing(cards, byKey);
    EveryCardCounted(byKey, cards);
    CountsAre(byKey, cards);
    var total := |cards|;
    var broken := missingFlags + missingCoats + unknownMembers;
    var ready := total - broken;
    item := WorkQueueItem(
      deck.key, total, Some(ready), Some(if total == 0 then 100 else Percentage(ready, total)),
      missingFlags, missingCoats, unknownMembers,
      if broken == 0 then ReadyDeck else if missingFlags + unknownMembers > 0 then Blocked else Warning);
    PercentageMeaning(ready, total);
  }

  method CountMissing(cards: seq<CardVariant>, byKey: ByKey)
    returns (missingFlags: nat, missingCoats: nat, unknownMembers: nat)
    ensures missingFlags == Count(byKey, cards, NoFlag)
    ensures missingCoats == Count(byKey, cards, NoCoat)
    ensures unknownMembers == Count(byKey, cards, Unknown)
  {
    missingFlags, missingCoats, unknownMembers := 0, 0, 0;
    for n := 0 to |cards|
      invariant missingFlags == Count(byKey, cards[..n], NoFlag)
      invariant missingCoats == Count(byKey, cards[..n], NoCoat)
      invariant unknownMembers == Count(byKey, cards[..n], Unknown)
    {
      assert cards[..n + 1][..n] == cards[..n];
      var member := cards[n];
      if member.entityKey !in byKey {
        unknownMembers := unknownMembers + 1;
        continue;
      }
      var entity := byKey[member.entityKey];
      if member.templateCode == "FLAG_TO_COUNTRY" && entity.hasFlag == Some(false) {
        missingFlags := missingFlags + 1;
      }
      if member.templateCode == "COAT_OF_ARMS_TO_COUNTRY" && entity.hasCoatOfArms == Some(false) {
        missingCoats := missingCoats + 1;
      }
    }
    assert cards[..|cards|] == cards;
  }

  ghost predicate LacksFlag(byKey: ByKey, card: CardVariant) {
    && card.entityKey in byKey && card.templateCode == "FLAG_TO_COUNTRY"
    && byKey[card.entityKey].hasFlag == Some(false)
  }

  ghost predicate LacksCoat(byKey: ByKey, card: CardVariant) {
    && card.entityKey in byKey && card.templateCode == "COAT_OF_ARMS_TO_COUNTRY"
    && byKey[card.entityKey].hasCoatOfArms == Some(false)
  }

  ghost predicate IsReady(byKey: ByKey, card: CardVariant) {
    card.entityKey in byKey && !LacksFlag(byKey, card) && !LacksCoat(byKey, card)
  }

  /** `percent` is the whole number nearest to `ready` of `total` in per cent, the upper one of two. */
  ghost predicate Nearest(percent: int, ready: int, total: int) {
    if total == 0 then percent == 100
    else 2 * total * percent <= 200 * ready + total < 2 * total * (percent + 1)
  }

  /** What a resolved item says: how many of the deck's cards are ready, want a flag, want a coat
      of arms, or are of nobody in the draft; these add up; the percentage is the nearest, and 100
      exactly when no more than one card in 200 is broken; the readiness follows from what is
      missing. */
  ghost predicate Accounts(item: WorkQueueItem, byKey: ByKey, cards: seq<CardVariant>) {
    && item.cardCount == |cards|
    && item.ready == Some(|Filter(cards, (c: CardVariant) => IsReady(byKey, c))|)
    && item.missingFlags == |Filter(cards, (c: CardVariant) => LacksFlag(byKey, c))|
    && item.missingCoats == |Filter(cards, (c: CardVariant) => LacksCoat(byKey, c))|
    && item.unknownMembers == |Filter(cards, (c: CardVariant) => c.entityKey !in byKey)|
    && item.ready.value + item.missingFlags + item.missingCoats + item.unknownMembers == item.cardCount
    && item.completeness.Some? && Nearest(item.completeness.value, item.ready.value, item.cardCount)
    && 0 <= item.completeness.value <= 100
    && (item.completeness == Some(100) <==> 200 * (item.cardCount - item.ready.value) <= item.cardCount)
    && (item.readiness == ReadyDeck <==> item.ready.value == item.cardCount)
    && (item.readiness == Blocked <==> item.missingFlags > 0 || item.unknownMembers > 0)
    && item.readiness != Unresolved
  }

  lemma {:induction false} CountIs(byKey: ByKey, cards: seq<CardVariant>, standing: Standing, keep: CardVariant -> bool)
    requires forall c :: StandingOf(byKey, c) == standing <==> keep(c)
    ensures Count(byKey, cards, standing) == |Filter(cards, keep)|
  {
    if cards != [] {
      var front, last := cards[..|cards| - 1], cards[|cards| - 1];
      CountIs(byKey, front, standing, keep);
      assert cards == front + [last];
      FilterConcat(front, [last], keep);
      assert [last][1..] == [];
    }
  }

  lemma {:induction false} CountsAre(byKey: ByKey, cards: seq<CardVariant>)
    ensures Count(byKey, cards, Drawn) == |Filter(cards, (c: CardVariant) => IsReady(byKey, c))|
    ensures Count(byKey, cards, NoFlag) == |Filter(cards, (c: CardVariant) => LacksFlag(byKey, c))|
    ensures Count(byKey, cards, NoCoat) == |Filter(cards, (c: CardVariant) => LacksCoat(byKey, c))|
    ensures Count(byKey, cards, Unknown) == |Filter(cards, (c: CardVariant) => c.entityKey !in byKey)|
  {
    CountIs(byKey, cards, Drawn, (c: CardVariant) => IsReady(byKey, c));
    CountIs(byKey, cards, NoFlag, (c: CardVariant) => LacksFlag(byKey, c));
    CountIs(byKey, cards, NoCoat, (c: CardVariant) => LacksCoat(byKey, c));
    CountIs(byKey, cards, Unknown, (c: CardVariant) => c.entityKey !in byKey);
  }

  lemma {:induction false} EveryCardCounted(byKey: ByKey, cards: seq<CardVariant>)
    ensures Count(byKey, cards, Drawn) + Count(byKey, cards, NoFlag)
            + Count(byKey, cards, NoCoat) + Count(byKey, cards, Unknown) == |cards|
  {
    if cards != [] { EveryCardCounted(byKey, cards[..|cards| - 1]); }
  }

  lemma PercentageMeaning(ready: int, total: nat)
    requires 0 <= ready <= total
    ensures total > 0 ==> 0 <= Percentage(ready, total) <= 100
    ensures total > 0 ==> (Percentage(ready, total) == 100 <==> 200 * (total - ready) <= total)
    ensures total > 0 ==> Nearest(Percentage(ready, total), ready, total)
  {
    if total > 0 {
      var a, d := 200 * ready + total, 2 * total;
      QuotientBelow(a, d, a / d);
      QuotientBelow(a, d, a / d + 1);
      QuotientBelow(a, d, 0);
      QuotientBelow(a, d, 100);
      QuotientBelow(a, d, 101);
    }
  }

  lemma QuotientBelow(a: int, d: nat, k: int)
    requires d > 0
    ensures a / d < k <==> a < k * d
  {
    var q := a / d;
    assert q * d <= a < q * d + d;
    if q < k { ScaleUp(q + 1, k, d); } else { ScaleUp(k, q, d); }
  }

  lemma ScaleUp(m: int, n: int, d: nat)
    requires m <= n
    ensures m * d <= n * d
  {
    assert (n - m) * d >= 0;
  }

  function Rank(item: WorkQueueItem): int {
    if item.completeness.Some? then item.completeness.value else 101
  }

  predicate MostBrokenFirst(l: WorkQueueItem, r: WorkQueueItem) {
    Rank(l) <= Rank(r)
  }

  /** The item is no more complete than the other, or the other is unresolved. */
  ghost predicate NoMoreComplete(l: WorkQueueItem, r: WorkQueueItem) {
    r.completeness.Some? ==> l.completeness.Some? && l.completeness.value <= r.completeness.value
  }

  /** The items with this completeness, in order. */
  ghost function AllAt(items: seq<WorkQueueItem>, completeness: Option<int>): seq<WorkQueueItem> {
    Filter(items, (item: WorkQueueItem) => item.completeness == completeness)
  }

  /** The queue holds one item a deck, the most broken first, ties in deck order, and the
      decks it cannot resolve at the end. */
  method WorkQueue(decks: seq<DraftDeck>, entities: seq<DraftEntity>)
    returns (queue: seq<WorkQueueItem>, ghost items: seq<WorkQueueItem>)
    ensures |items| == |decks|
    ensures forall i :: 0 <= i < |decks| ==> IsItemOf(items[i], decks[i], entities)
    ensures multiset(queue) == multiset(items)
    ensures forall i, j :: 0 <= i < j < |queue| ==> NoMoreComplete(queue[i], queue[j])
    ensures forall c :: AllAt(queue, c) == AllAt(items, c)
  {
    var byKey := IndexEntities(entities);
    var all: seq<WorkQueueItem> := [];
    for n := 0 to |decks|
      invariant |all| == n
      invariant forall i :: 0 <= i < n ==> IsItemOf(all[i], decks[i], entities)
      invariant forall i :: 0 <= i < n && all[i].completeness.Some? ==> all[i].completeness.value <= 100
    {
      var item := QueueItem(decks[n], entities, byKey);
      all := all + [item];
    }
    items := all;
    queue := Sort(all, MostBrokenFirst);
    QueueOrder(all);
  }

  lemma QueueOrder(all: seq<WorkQueueItem>)
    requires forall i :: 0 <= i < |all| && all[i].completeness.Some? ==> all[i].completeness.value <= 100
    ensures var queue := Sort(all, MostBrokenFirst);
      && multiset(queue) == multiset(all)
      && (forall i, j :: 0 <= i < j < |queue| ==> NoMoreComplete(queue[i], queue[j]))
      && (forall c :: AllAt(queue, c) == AllAt(all, c))
  {
    var queue := Sort(all, MostBrokenFirst);
    assert TotalPreorder(MostBrokenFirst);
    SortSorted(all, MostBrokenFirst);
    SortMultiset(all, MostBrokenFirst);
    SortMembers(all, MostBrokenFirst);
    forall i, j | 0 <= i < j < |queue| ensures NoMoreComplete(queue[i], queue[j]) {
      assert MostBrokenFirst(queue[i], queue[j]);
      assert queue[j] in all;
    }
    forall c ensures AllAt(queue, c) == AllAt(all, c) {
      TiedPartStays(all, (item: WorkQueueItem) => item.completeness == c, MostBrokenFirst);
    }
  }

  /** A deck of 200 cards with one flag missing is blocked and shows 100 per cent. */
  lemma BlockedDeckShows100(byKey: ByKey, good: CardVariant, bad: CardVariant, item: WorkQueueItem)
    requires IsReady(byKey, good) && LacksFlag(byKey, bad)
    requires Accounts(item, byKey, seq(199, _ => good) + [bad])
    ensures item.completeness == Some(100) && item.missingFlags == 1 && item.readiness == Blocked
  {
    var most := seq(199, _ => good);
    var ready := (c: CardVariant) => IsReady(byKey, c);
    var lacks := (c: CardVariant) => LacksFlag(byKey, c);
    FilterConcat(most, [bad], ready);
    FilterConcat(most, [bad], lacks);
    FilterAll(most, ready);
    FilterNone(most, lacks);
    assert [bad][1..] == [];
  }
}
