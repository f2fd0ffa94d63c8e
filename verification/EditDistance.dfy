/** The suggestion score of the entity matcher: the one-row Levenshtein table,
    the similarity built on it and the three best suggestions.

    An edit distance is specified without any table, as the cheapest `Script`
    that turns one string into the other. */
module EditDistance {
  import opened Sorting

  // ---- Edit scripts -------------------------------------------------------

  /** How one string becomes another, last edit outermost. */
  datatype Script =
    | Done
    | Keep(before: Script, c: char)
    | Substitute(before: Script, a: char, b: char)
    | InsertChar(before: Script, b: char)
    | DeleteChar(before: Script, a: char)
  {
    function Source(): string {
      match this
      case Done => []
      case Keep(s, c) => s.Source() + [c]
      case Substitute(s, a, _) => s.Source() + [a]
      case InsertChar(s, _) => s.Source()
      case DeleteChar(s, a) => s.Source() + [a]
    }

    function Target(): string {
      match this
      case Done => []
      case Keep(s, c) => s.Target() + [c]
      case Substitute(s, _, b) => s.Target() + [b]
      case InsertChar(s, b) => s.Target() + [b]
      case DeleteChar(s, _) => s.Target()
    }

    function Cost(): nat {
      match this
      case Done => 0
      case Keep(s, _) => s.Cost()
      case Substitute(s, _, _) => s.Cost() + 1
      case InsertChar(s, _) => s.Cost() + 1
      case DeleteChar(s, _) => s.Cost() + 1
    }

    predicate Turns(left: string, right: string) {
      Source() == left && Target() == right
    }
  }

  /** `d` is the least number of insertions, deletions and substitutions
      that turn `left` into `right`. */
  ghost predicate IsEditDistance(left: string, right: string, d: nat) {
    && (exists s: Script :: s.Turns(left, right) && s.Cost() == d)
    && (forall s: Script :: s.Turns(left, right) ==> d <= s.Cost())
  }

  // ---- The recurrence the table follows ------------------------------------

  function Min3(a: nat, b: nat, c: nat): nat {
    if a <= b && a <= c then a else if b <= c then b else c
  }

  function Front(s: string): string
    requires s != []
  {
    s[..|s| - 1]
  }

  function Last(s: string): char
    requires s != []
  {
    s[|s| - 1]
  }

  function Table(left: string, right: string): nat
    decreases |left| + |right|
  {
    if left == [] then |right|
    else if right == [] then |left|
    else Min3(
           Table(Front(left), right) + 1,
           Table(left, Front(right)) + 1,
           Table(Front(left), Front(right)) + if Last(left) == Last(right) then 0 else 1)
  }

  function Cheapest(left: string, right: string): Script
    decreases |left| + |right|
  {
    if left == [] && right == [] then Done
    else if left == [] then InsertChar(Cheapest(left, Front(right)), Last(right))
    else if right == [] then DeleteChar(Cheapest(Front(left), right), Last(left))
    else
      var up := Table(Front(left), right) + 1;
      var back := Table(left, Front(right)) + 1;
      if Table(left, right) == up then DeleteChar(Cheapest(Front(left), right), Last(left))
      else if Table(left, right) == back then InsertChar(Cheapest(left, Front(right)), Last(right))
      else if Last(left) == Last(right) then Keep(Cheapest(Front(left), Front(right)), Last(left))
      else Substitute(Cheapest(Front(left), Front(right)), Last(left), Last(right))
  }

  lemma {:induction false} CheapestTurns(left: string, right: string)
    ensures Cheapest(left, right).Turns(left, right)
    ensures Cheapest(left, right).Cost() == Table(left, right)
    decreases |left| + |right|
  {
    if left != [] { assert Front(left) + [Last(left)] == left; }
    if right != [] { assert Front(right) + [Last(right)] == right; }
    var s := Cheapest(left, right);
    match s
    case Done =>
    case DeleteChar(_, _) => CheapestTurns(Front(left), right);
    case InsertChar(_, _) => CheapestTurns(left, Front(right));
    case Keep(_, _) => CheapestTurns(Front(left), Front(right));
    case Substitute(_, _, _) => CheapestTurns(Front(left), Front(right));
  }

  /** No cell of the table is more than one edit above its neighbours. */
  lemma {:induction false} TableBound(a: string, b: string)
    ensures a != [] ==> Table(a, b) <= Table(Front(a), b) + 1
    ensures b != [] ==> Table(a, b) <= Table(a, Front(b)) + 1
    ensures a != [] && b != [] ==>
              Table(a, b) <= Table(Front(a), Front(b)) + if Last(a) == Last(b) then 0 else 1
  {
  }

  lemma {:induction false} NoScriptIsCheaper(s: Script)
    ensures Table(s.Source(), s.Target()) <= s.Cost()
  {
    TableBound(s.Source(), s.Target());
    match s
    case Done =>
    case Keep(p, c) =>
      NoScriptIsCheaper(p);
      assert Front(s.Source()) == p.Source() && Front(s.Target()) == p.Target();
    case Substitute(p, a, b) =>
      NoScriptIsCheaper(p);
      assert Front(s.Source()) == p.Source() && Front(s.Target()) == p.Target();
    case InsertChar(p, b) =>
      NoScriptIsCheaper(p);
      assert Front(s.Target()) == p.Target();
    case DeleteChar(p, a) =>
      NoScriptIsCheaper(p);
      assert Front(s.Source()) == p.Source();
  }

  lemma TableIsEditDistance(left: string, right: string)
    ensures IsEditDistance(left, right, Table(left, right))
  {
    CheapestTurns(left, right);
    forall s: Script | s.Turns(left, right) ensures Table(left, right) <= s.Cost() {
      NoScriptIsCheaper(s);
    }
  }

  // ---- The in-place table ---------------------------------------------------

  function Prefix(s: string, n: nat): string
    requires n <= |s|
  {
    s[..n]
  }

  lemma {:induction false} TableStep(left: string, right: string, i: nat, j: nat)
    requires i < |left| && j < |right|
    ensures Table(Prefix(left, i + 1), Prefix(right, j + 1))
         == Min3(Table(Prefix(left, i), Prefix(right, j + 1)) + 1,
                 Table(Prefix(left, i + 1), Prefix(right, j)) + 1,
                 Table(Prefix(left, i), Prefix(right, j)) + if left[i] == right[j] then 0 else 1)
  {
    var a, b := Prefix(left, i + 1), Prefix(right, j + 1);
    assert Front(a) == Prefix(left, i) && Front(b) == Prefix(right, j);
    assert Last(a) == left[i] && Last(b) == right[j];
    TableUnfolded(a, b);
  }

  lemma {:induction false} TableUnfolded(a: string, b: string)
    requires a != [] && b != []
    ensures Table(a, b) == Min3(Table(Front(a), b) + 1, Table(a, Front(b)) + 1,
                                Table(Front(a), Front(b)) + if Last(a) == Last(b) then 0 else 1)
  {
  }

  /** `v` belongs in row `i`, column `j` of the full table. */
  ghost predicate InCell(left: string, right: string, i: nat, j: nat, v: nat) {
    i <= |left| && j <= |right| && v == Table(Prefix(left, i), Prefix(right, j))
  }

  lemma {:induction false} NextCell(left: string, right: string, i: nat, j: nat, above: nat, before: nat, previous: nat)
    requires i < |left| && j < |right|
    requires InCell(left, right, i, j + 1, above)
    requires InCell(left, right, i + 1, j, before)
    requires InCell(left, right, i, j, previous)
    ensures InCell(left, right, i + 1, j + 1,
                   Min3(above + 1, before + 1, previous + if left[i] == right[j] then 0 else 1))
  {
    TableStep(left, right, i, j);
  }

  /** One row overwritten in place; the cell it replaces is kept in `previous`. */
  method Levenshtein(left: string, right: string) returns (d: nat)
    ensures IsEditDistance(left, right, d)
    ensures d == Table(left, right)
  {
    var row := new nat[|right| + 1](i => i);
    for i := 0 to |left|
      invariant forall k :: 0 <= k <= |right| ==> InCell(left, right, i, k, row[k])
    {
      var previous := row[0];
      row[0] := i + 1;
      for j := 0 to |right|
        invariant InCell(left, right, i, j, previous)
        invariant forall k :: 0 <= k <= j ==> InCell(left, right, i + 1, k, row[k])
        invariant forall k :: j < k <= |right| ==> InCell(left, right, i, k, row[k])
      {
        var above := row[j + 1];
        NextCell(left, right, i, j, above, row[j], previous);
        row[j + 1] := Min3(above + 1, row[j] + 1,
                           previous + if left[i] == right[j] then 0 else 1);
        previous := above;
      }
    }
    d := row[|right|];
    assert Prefix(left, |left|) == left && Prefix(right, |right|) == right;
    TableIsEditDistance(left, right);
  }

  // ---- The distance is a metric ---------------------------------------------

  function Inverse(s: Script): Script {
    match s
    case Done => Done
    case Keep(p, c) => Keep(Inverse(p), c)
    case Substitute(p, a, b) => Substitute(Inverse(p), b, a)
    case InsertChar(p, b) => DeleteChar(Inverse(p), b)
    case DeleteChar(p, a) => InsertChar(Inverse(p), a)
  }

  lemma {:induction false} InverseTurnsBack(s: Script)
    ensures Inverse(s).Turns(s.Target(), s.Source()) && Inverse(s).Cost() == s.Cost()
  {
    if !s.Done? { InverseTurnsBack(s.before); }
  }

  /** Doing `s` and then `t`, each character followed through both. */
  function Compose(s: Script, t: Script): Script
    requires s.Target() == t.Source()
    decreases s, t
  {
    if t.InsertChar? then InsertChar(Compose(s, t.before), t.b)
    else if s.DeleteChar? then DeleteChar(Compose(s.before, t), s.a)
    else if s.Done? then Done
    else
      assert Front(s.Target()) == s.before.Target();
      assert Front(t.Source()) == t.before.Source();
      var rest := Compose(s.before, t.before);
      if s.Keep? then
        if t.Keep? then Keep(rest, s.c)
        else if t.Substitute? then Substitute(rest, s.c, t.b)
        else DeleteChar(rest, s.c)
      else if s.Substitute? then
        if t.Keep? then Substitute(rest, s.a, t.c)
        else if t.Substitute? then Substitute(rest, s.a, t.b)
        else DeleteChar(rest, s.a)
      else
        if t.Keep? then InsertChar(rest, t.c)
        else if t.Substitute? then InsertChar(rest, t.b)
        else rest
  }

  lemma {:induction false} ComposeTurns(s: Script, t: Script)
    requires s.Target() == t.Source()
    ensures Compose(s, t).Turns(s.Source(), t.Target())
    ensures Compose(s, t).Cost() <= s.Cost() + t.Cost()
    decreases s, t
  {
    if t.InsertChar? {
      ComposeTurns(s, t.before);
    } else if s.DeleteChar? {
      ComposeTurns(s.before, t);
    } else if !s.Done? {
      assert Front(s.Target()) == s.before.Target() && Front(t.Source()) == t.before.Source();
      assert Last(s.Target()) == Last(t.Source());
      ComposeTurns(s.before, t.before);
    }
  }

  lemma {:induction false} FreeScriptKeeps(s: Script)
    requires s.Cost() == 0
    ensures s.Source() == s.Target()
  {
    if !s.Done? { FreeScriptKeeps(s.before); }
  }

  lemma {:induction false} TableToSelf(s: string)
    ensures Table(s, s) == 0
  {
    if s != [] { TableToSelf(Front(s)); }
  }

  lemma {:induction false} TableBounded(left: string, right: string)
    ensures Table(left, right) <= if |left| <= |right| then |right| else |left|
    decreases |left| + |right|
  {
    if left != [] && right != [] { TableBounded(Front(left), Front(right)); }
  }

  /** Zero exactly on equal strings, symmetric, at most the longer length. */
  lemma DistanceLaws(left: string, right: string, d: nat)
    requires IsEditDistance(left, right, d)
    ensures d == 0 <==> left == right
    ensures IsEditDistance(right, left, d)
    ensures d <= |left| || d <= |right|
  {
    CheapestTurns(left, right);
    TableIsEditDistance(right, left);
    TableBounded(left, right);
    var s: Script :| s.Turns(left, right) && s.Cost() == d;
    NoScriptIsCheaper(s);
    InverseTurnsBack(s);
    var back := Cheapest(right, left);
    CheapestTurns(right, left);
    InverseTurnsBack(back);
    assert Inverse(back).Turns(left, right) && Inverse(s).Turns(right, left);
    if d == 0 { FreeScriptKeeps(s); }
    if left == right { TableToSelf(left); }
  }

  lemma TriangleInequality(a: string, b: string, c: string, ab: nat, bc: nat, ac: nat)
    requires IsEditDistance(a, b, ab) && IsEditDistance(b, c, bc) && IsEditDistance(a, c, ac)
    ensures ac <= ab + bc
  {
    var s: Script :| s.Turns(a, b) && s.Cost() == ab;
    var t: Script :| t.Turns(b, c) && t.Cost() == bc;
    ComposeTurns(s, t);
    assert Compose(s, t).Turns(a, c);
  }

  // ---- Suggestions ------------------------------------------------------------

  function Max(a: nat, b: nat): nat {
    if a <= b then b else a
  }

  function Similarity(left: string, right: string): real {
    1.0 - Table(left, right) as real / Max(Max(|left|, |right|), 1) as real
  }

  lemma ShareOf(d: real, n: real)
    requires n > 0.0
    ensures (1.0 - (1.0 - d / n)) * n == d
  {
  }

  lemma {:induction false} DistanceIsTable(left: string, right: string, d: nat)
    requires IsEditDistance(left, right, d)
    ensures d == Table(left, right)
  {
    CheapestTurns(left, right);
    var s: Script :| s.Turns(left, right) && s.Cost() == d;
    NoScriptIsCheaper(s);
  }

  /** What `score` lacks to one is the share `d` of `longest`. */
  ghost predicate Lacks(score: real, d: nat, longest: nat) {
    (1.0 - score) * longest as real == d as real
  }

  lemma TableShare(d: nat, longest: nat)
    requires d <= longest
    ensures Lacks(1.0 - d as real / Max(longest, 1) as real, d, longest)
  {
    ShareOf(d as real, Max(longest, 1) as real);
  }

  /** What similarity lacks to one is the distance as a share of the longer string. */
  lemma {:induction false} SimilarityShare(left: string, right: string, d: nat)
    requires IsEditDistance(left, right, d)
    ensures Lacks(Similarity(left, right), d, if |left| <= |right| then |right| else |left|)
  {
    DistanceIsTable(left, right, d);
    TableBounded(left, right);
    TableShare(d, Max(|left|, |right|));
  }

  /** It lies in [0, 1], is one exactly on equal strings, and symmetric. */
  lemma SimilarityRange(left: string, right: string)
    ensures 0.0 <= Similarity(left, right) <= 1.0
    ensures Similarity(left, right) == 1.0 <==> left == right
    ensures Similarity(left, right) == Similarity(right, left)
  {
    TableIsEditDistance(left, right);
    DistanceLaws(left, right, Table(left, right));
    TableIsEditDistance(right, left);
    var d, longest := Table(left, right) as real, Max(Max(|left|, |right|), 1) as real;
    QuotientRange(d, longest);
    var s: Script :| s.Turns(left, right) && s.Cost() == Table(left, right);
    assert IsEditDistance(right, left, Table(left, right));
    var t: Script :| t.Turns(right, left) && t.Cost() == Table(right, left);
  }

  lemma QuotientRange(d: real, n: real)
    requires 0.0 <= d <= n && 0.0 < n
    ensures 0.0 <= d / n <= 1.0
    ensures d / n == 0.0 <==> d == 0.0
  {
    var q := d / n;
    assert q * n == d;
    SignOfFactor(q, n);
    assert (1.0 - q) * n == n - d;
    SignOfFactor(1.0 - q, n);
  }

  lemma SignOfFactor(a: real, n: real)
    requires n > 0.0 && a * n >= 0.0
    ensures a >= 0.0
  {
  }

  datatype Scored = Scored(key: string, score: real)

  predicate BetterFirst(a: Scored, b: Scored) {
    a.score >= b.score
  }

  const THRESHOLD: real := 0.55
  const SUGGESTION_LIMIT: nat := 3

  /** The scored keys; `lower` stands for `toLowerCase`. */
  function Scores(needle: string, keys: seq<string>, lower: string -> string): (r: seq<Scored>)
    ensures |r| == |keys|
    ensures forall i :: 0 <= i < |keys| ==> r[i] == Scored(keys[i], Similarity(lower(needle), lower(keys[i])))
  {
    seq(|keys|, i requires 0 <= i < |keys| => Scored(keys[i], Similarity(lower(needle), lower(keys[i]))))
  }

  predicate Close(s: Scored) {
    s.score >= THRESHOLD
  }

  function Ranked(needle: string, keys: seq<string>, lower: string -> string): seq<Scored> {
    Sort(Filter(Scores(needle, keys, lower), Close), BetterFirst)
  }

  function Suggestions(needle: string, keys: seq<string>, lower: string -> string): seq<Scored> {
    var ranked := Ranked(needle, keys, lower);
    ranked[..if |ranked| <= SUGGESTION_LIMIT then |ranked| else SUGGESTION_LIMIT]
  }

  /** `rest` is what `best` leaves out of `all`: nothing better, nothing as good that comes
      earlier, and nothing at all while there is room. */
  ghost predicate LeftOut(all: seq<Scored>, best: seq<Scored>, rest: seq<Scored>) {
    && multiset(best) + multiset(rest) == multiset(all)
    && (forall s, t :: s in best && t in rest ==> s.score >= t.score)
    && SameTieClasses(best + rest, all, BetterFirst)
    && (rest != [] ==> |best| == 3)
  }

  /** The suggestions are the best close keys: each is an editorial key at or over
      the threshold, they run from best to worst, and no close key left out scores
      higher than one that is kept. Equals keep the order of the catalog, and none is left
      out while there is room. */
  lemma SuggestionsAreTheBest(needle: string, keys: seq<string>, lower: string -> string)
    ensures var best := Suggestions(needle, keys, lower);
      && |best| <= 3
      && (forall i, j :: 0 <= i < j < |best| ==> best[i].score >= best[j].score)
      && (forall s :: s in best ==> s in Scores(needle, keys, lower) && s.score >= 0.55)
      && (forall s :: s in Scores(needle, keys, lower) && s.score >= 0.55 <==>
            s in Filter(Scores(needle, keys, lower), Close))
      && exists rest: seq<Scored> :: LeftOut(Filter(Scores(needle, keys, lower), Close), best, rest)
  {
    BestFirst(Filter(Scores(needle, keys, lower), Close));
  }

  lemma BestSorted(ranked: seq<Scored>, n: nat)
    requires Sorted(ranked, BetterFirst) && n <= |ranked|
    ensures forall i, j :: 0 <= i < j < n ==> ranked[..n][i].score >= ranked[..n][j].score
    ensures forall s, t :: s in ranked[..n] && t in ranked[n..] ==> s.score >= t.score
  {
    forall i, j | 0 <= i < j < |ranked| ensures ranked[i].score >= ranked[j].score {
      assert BetterFirst(ranked[i], ranked[j]);
    }
  }

  lemma BestFirst(close: seq<Scored>)
    ensures var ranked := Sort(close, BetterFirst);
      var best := ranked[..if |ranked| <= SUGGESTION_LIMIT then |ranked| else SUGGESTION_LIMIT];
      && (forall i, j :: 0 <= i < j < |best| ==> best[i].score >= best[j].score)
      && (forall s :: s in best ==> s in close)
      && exists rest: seq<Scored> :: LeftOut(close, best, rest)
  {
    var ranked := Sort(close, BetterFirst);
    var n := if |ranked| <= SUGGESTION_LIMIT then |ranked| else SUGGESTION_LIMIT;
    var best, rest := ranked[..n], ranked[n..];
    SortSorted(close, BetterFirst);
    SortMultiset(close, BetterFirst);
    SortMembers(close, BetterFirst);
    assert ranked == best + rest;
    BestSorted(ranked, n);
    assert forall s :: s in best ==> s in ranked;
    forall x ensures TieClass(best + rest, x, BetterFirst) == TieClass(close, x, BetterFirst) {
      SortStable(close, x, BetterFirst);
    }
    assert LeftOut(close, best, rest);
  }
}
