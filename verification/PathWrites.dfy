/** Writes by dotted path into nested records, and when several of them can all be read
    back afterwards. */
module PathWrites {
  import opened Types
  import opened Sorting

  type Path = p: seq<string> | p != [] witness [""]

  /** The record under a key; anything else there is replaced by an empty one. */
  function Child(target: Json, key: string): (r: Json)
    requires target.Obj?
    ensures r.Obj?
  {
    if key in target.fields && target.fields[key].Obj? then target.fields[key] else Obj(map[])
  }

  function SetPath(target: Json, path: Path, value: Json): (r: Json)
    requires target.Obj?
    ensures r.Obj?
    decreases |path|
  {
    if |path| == 1 then Obj(target.fields[path[0] := value])
    else
      Obj(target.fields[path[0] := SetPath(Child(target, path[0]), path[1..], value)])
  }

  function GetPath(j: Json, path: seq<string>): Option<Json>
    decreases |path|
  {
    if path == [] then Some(j)
    else if j.Obj? && path[0] in j.fields then GetPath(j.fields[path[0]], path[1..])
    else None
  }

  ghost predicate Overlap(p: seq<string>, q: seq<string>) {
    p <= q || q <= p
  }

  lemma {:induction false} ReadWritten(t: Json, p: Path, v: Json, rest: seq<string>)
    requires t.Obj?
    ensures GetPath(SetPath(t, p, v), p + rest) == GetPath(v, rest)
    decreases |p|
  {
    assert (p + rest)[1..] == p[1..] + rest;
    if |p| == 1 {
      assert p[1..] + rest == rest;
    } else {
      var child := Child(t, p[0]);
      ReadWritten(child, p[1..], v, rest);
    }
  }

  lemma PartLater(p: Path, q: Path)
    requires p[0] == q[0] && !Overlap(p, q)
    ensures |p| > 1 && |q| > 1 && !Overlap(p[1..], q[1..])
  {
    assert p == [p[0]] + p[1..] && q == [q[0]] + q[1..];
    assert |p| == 1 ==> p <= q;
    assert |q| == 1 ==> q <= p;
  }

  lemma {:induction false} ReadElsewhere(t: Json, p: Path, v: Json, q: Path)
    requires t.Obj? && !Overlap(p, q)
    ensures GetPath(SetPath(t, p, v), q) == GetPath(t, q)
    decreases |p|
  {
    if p[0] == q[0] {
      PartLater(p, q);
      var child := Child(t, p[0]);
      ReadElsewhere(child, p[1..], v, q[1..]);
    }
  }

  lemma {:induction false} WriteWhatIsThere(t: Json, p: Path, v: Json)
    requires t.Obj? && GetPath(t, p) == Some(v)
    ensures SetPath(t, p, v) == t
    decreases |p|
  {
    if |p| > 1 {
      assert t.fields[p[0]].Obj?;
      WriteWhatIsThere(t.fields[p[0]], p[1..], v);
    } else {
      assert p[1..] == [];
    }
  }

  lemma {:induction false} Overwrite(t: Json, p: Path, rest: seq<string>, v: Json, w: Json)
    requires t.Obj?
    ensures SetPath(SetPath(t, p + rest, w), p, v) == SetPath(t, p, v)
    decreases |p|
  {
    var q := p + rest;
    if |p| > 1 {
      var child := Child(t, p[0]);
      assert q[1..] == p[1..] + rest;
      Overwrite(child, p[1..], rest, v, w);
      var inner := SetPath(child, q[1..], w);
      assert SetPath(t, q, w) == Obj(t.fields[p[0] := inner]);
      assert t.fields[p[0] := inner][p[0] := SetPath(inner, p[1..], v)] == t.fields[p[0] := SetPath(child, p[1..], v)];
    } else {
      var x := SetPath(t, q, w).fields[p[0]];
      assert SetPath(t, q, w) == Obj(t.fields[p[0] := x]);
      assert t.fields[p[0] := x][p[0] := v] == t.fields[p[0] := v];
    }
  }

  lemma WriteTwiceBelow(t: Json, k: string, p: Path, v: Json, q: Path, w: Json)
    requires t.Obj?
    ensures SetPath(SetPath(t, [k] + p, v), [k] + q, w)
         == Obj(t.fields[k := SetPath(SetPath(Child(t, k), p, v), q, w)])
  {
    assert ([k] + p)[1..] == p && ([k] + q)[1..] == q;
    var a := SetPath(Child(t, k), p, v);
    assert SetPath(t, [k] + p, v) == Obj(t.fields[k := a]);
    assert t.fields[k := a][k := SetPath(a, q, w)] == t.fields[k := SetPath(a, q, w)];
  }

  lemma {:induction false} WritesApart(t: Json, p: Path, v: Json, q: Path, w: Json)
    requires t.Obj? && !Overlap(p, q)
    ensures SetPath(SetPath(t, p, v), q, w) == SetPath(SetPath(t, q, w), p, v)
    decreases |p|
  {
    if p[0] == q[0] {
      PartLater(p, q);
      var k := p[0];
      var child := Child(t, k);
      WritesApart(child, p[1..], v, q[1..], w);
      WriteTwiceBelow(t, k, p[1..], v, q[1..], w);
      WriteTwiceBelow(t, k, q[1..], w, p[1..], v);
      assert p == [k] + p[1..] && q == [k] + q[1..];
    } else {
      WritesInOtherFields(t, p, v, q, w);
    }
  }

  lemma {:induction false} WritesInOtherFields(t: Json, p: Path, v: Json, q: Path, w: Json)
    requires t.Obj? && p[0] != q[0]
    ensures SetPath(SetPath(t, p, v), q, w) == SetPath(SetPath(t, q, w), p, v)
  {
    var f := t.fields;
    var a := if |p| == 1 then v else SetPath(Child(t, p[0]), p[1..], v);
    var b := if |q| == 1 then w else SetPath(Child(t, q[0]), q[1..], w);
    var left, right := Obj(f[p[0] := a]), Obj(f[q[0] := b]);
    assert SetPath(t, p, v) == left && SetPath(t, q, w) == right;
    assert Child(left, q[0]) == Child(t, q[0]) && Child(right, p[0]) == Child(t, p[0]);
    assert f[p[0] := a][q[0] := b] == f[q[0] := b][p[0] := a];
  }

  // ---- Several writes -----------------------------------------------------------------

  datatype Write = Write(path: Path, value: Json)

  function ApplyAll(t: Json, writes: seq<Write>): (r: Json)
    requires t.Obj?
    ensures r.Obj?
    decreases |writes|
  {
    if writes == [] then t else ApplyAll(SetPath(t, writes[0].path, writes[0].value), writes[1..])
  }

  /** Where one path continues another, the value written at the shorter one already
      carries what is written at the longer one. */
  ghost predicate Agree(w: Write, x: Write) {
    w.path <= x.path ==> GetPath(w.value, x.path[|w.path|..]) == Some(x.value)
  }

  ghost predicate Compatible(writes: seq<Write>) {
    forall w, x :: w in writes && x in writes ==> Agree(w, x)
  }

  ghost predicate AllReadBack(t: Json, writes: seq<Write>) {
    forall w :: w in writes ==> GetPath(t, w.path) == Some(w.value)
  }

  /** A write compatible with one that can be read leaves it readable. */
  lemma WriteKeepsRead(t: Json, w: Write, x: Write)
    requires t.Obj? && GetPath(t, w.path) == Some(w.value) && Agree(w, x) && Agree(x, w)
    ensures GetPath(SetPath(t, x.path, x.value), w.path) == Some(w.value)
  {
    if w.path <= x.path {
      var rest := x.path[|w.path|..];
      assert x.path == w.path + rest;
      ReadThrough(t, w.path, rest);
      WriteWhatIsThere(t, x.path, x.value);
    } else if x.path <= w.path {
      var rest := w.path[|x.path|..];
      assert w.path == x.path + rest;
      ReadWritten(t, x.path, x.value, rest);
    } else {
      ReadElsewhere(t, x.path, x.value, w.path);
    }
  }

  lemma {:induction false} ReadThrough(t: Json, p: seq<string>, rest: seq<string>)
    ensures GetPath(t, p + rest) ==
            match GetPath(t, p) case None => None case Some(v) => GetPath(v, rest)
    decreases |p|
  {
    if p == [] {
      assert p + rest == rest;
    } else {
      assert (p + rest)[1..] == p[1..] + rest;
      if t.Obj? && p[0] in t.fields { ReadThrough(t.fields[p[0]], p[1..], rest); }
    }
  }

  lemma {:induction false} CompatibleReadBack(t: Json, done: seq<Write>, writes: seq<Write>)
    requires t.Obj? && Compatible(done + writes) && AllReadBack(t, done)
    ensures AllReadBack(ApplyAll(t, writes), done + writes)
    decreases |writes|
  {
    if writes == [] {
      assert done + writes == done;
    } else {
      var x := writes[0];
      assert x in done + writes;
      var next := SetPath(t, x.path, x.value);
      forall w | w in done + [x] ensures GetPath(next, w.path) == Some(w.value) {
        if w in done {
          assert w in done + writes;
          WriteKeepsRead(t, w, x);
        } else {
          ReadWritten(t, x.path, x.value, []);
          assert x.path + [] == x.path;
        }
      }
      assert (done + [x]) + writes[1..] == done + writes;
      CompatibleReadBack(next, done + [x], writes[1..]);
    }
  }

  /** Afterwards every write reads back exactly when overlapping writes agree. */
  lemma ReadBackIffCompatible(t: Json, writes: seq<Write>)
    requires t.Obj?
    ensures AllReadBack(ApplyAll(t, writes), writes) <==> Compatible(writes)
  {
    if Compatible(writes) {
      assert [] + writes == writes;
      CompatibleReadBack(t, [], writes);
    }
    var r := ApplyAll(t, writes);
    if AllReadBack(r, writes) {
      forall w, x | w in writes && x in writes && w.path <= x.path
        ensures GetPath(w.value, x.path[|w.path|..]) == Some(x.value)
      {
        assert x.path == w.path + x.path[|w.path|..];
        ReadThrough(r, w.path, x.path[|w.path|..]);
      }
    }
  }

  lemma {:induction false} CompatibleCommute(t: Json, w: Write, x: Write)
    requires t.Obj? && Agree(w, x) && Agree(x, w)
    ensures SetPath(SetPath(t, w.path, w.value), x.path, x.value)
         == SetPath(SetPath(t, x.path, x.value), w.path, w.value)
  {
    if w.path <= x.path {
      ContinuedCommute(t, w, x);
    } else if x.path <= w.path {
      ContinuedCommute(t, x, w);
    } else {
      WritesApart(t, w.path, w.value, x.path, x.value);
    }
  }

  lemma {:induction false} ContinuedCommute(t: Json, w: Write, x: Write)
    requires t.Obj? && w.path <= x.path && Agree(w, x)
    ensures SetPath(SetPath(t, w.path, w.value), x.path, x.value)
         == SetPath(SetPath(t, x.path, x.value), w.path, w.value)
  {
    var rest := x.path[|w.path|..];
    assert x.path == w.path + rest && GetPath(w.value, rest) == Some(x.value);
    WriteInside(t, w.path, w.value, rest, x.value);
  }

  /** What a value already holds can be written into it before or after. */
  lemma {:induction false} WriteInside(t: Json, p: Path, v: Json, rest: seq<string>, w: Json)
    requires t.Obj? && GetPath(v, rest) == Some(w)
    ensures SetPath(SetPath(t, p, v), p + rest, w) == SetPath(SetPath(t, p + rest, w), p, v)
  {
    ReadWritten(t, p, v, rest);
    WriteWhatIsThere(SetPath(t, p, v), p + rest, w);
    Overwrite(t, p, rest, v, w);
  }

  lemma {:induction false} BubbleUp(t: Json, before: seq<Write>, x: Write, after: seq<Write>)
    requires t.Obj? && forall w :: w in before ==> Agree(w, x) && Agree(x, w)
    ensures ApplyAll(t, before + [x] + after) == ApplyAll(t, [x] + before + after)
    decreases |before|
  {
    if before == [] {
      assert before + [x] + after == [x] + before + after;
    } else {
      var w, rest := before[0], before[1..];
      var next := SetPath(t, w.path, w.value);
      assert (before + [x] + after)[1..] == rest + [x] + after;
      BubbleUp(next, rest, x, after);
      assert ([x] + rest + after)[1..] == rest + after;
      assert ([x] + before + after)[1..] == before + after;
      assert (before + after)[1..] == rest + after;
      assert w in before;
      CompatibleCommute(t, w, x);
    }
  }

  /** Compatible writes give the same record in whatever order they are made. */
  lemma {:induction false} CompatibleOrderIndependent(t: Json, writes: seq<Write>, other: seq<Write>)
    requires t.Obj? && Compatible(writes) && multiset(other) == multiset(writes)
    ensures ApplyAll(t, other) == ApplyAll(t, writes)
    decreases |writes|
  {
    if writes == [] {
      assert |other| == |multiset(other)| == 0;
    } else {
      var x := writes[0];
      assert writes == [x] + writes[1..];
      var before, after := PullOut(other, x, writes[1..]);
      SameMembers(other, writes);
      assert forall w :: w in before ==> w in other;
      forall w | w in before ensures Agree(w, x) && Agree(x, w) { assert w in writes; }
      BubbleUp(t, before, x, after);
      assert [x] + before + after == [x] + (before + after);
      assert ([x] + (before + after))[1..] == before + after;
      CompatibleOrderIndependent(SetPath(t, x.path, x.value), writes[1..], before + after);
    }
  }

  // ---- Splitting strings ------------------------------------------------------------------

  /** One more character in front of what is already split. */
  function Glue(c: char, sep: char, rest: Path): Path {
    if c == sep then [""] + rest else [[c] + rest[0]] + rest[1..]
  }

  /** `String.prototype.split` with a one-character separator. */
  function Split(s: string, sep: char): (parts: Path)
    decreases |s|
  {
    if s == [] then [""]
    else Glue(s[0], sep, Split(s[1..], sep))
  }

  function Join(parts: Path, sep: char): string
    decreases |parts|
  {
    if |parts| == 1 then parts[0] else parts[0] + [sep] + Join(parts[1..], sep)
  }

  lemma {:induction false} JoinSplit(s: string, sep: char)
    ensures Join(Split(s, sep), sep) == s
    decreases |s|
  {
    if s != [] {
      JoinSplit(s[1..], sep);
      var rest := Split(s[1..], sep);
      if s[0] == sep {
        assert ([""] + rest)[1..] == rest;
      } else {
        assert ([[s[0]] + rest[0]] + rest[1..])[1..] == rest[1..];
      }
    }
  }

  lemma {:induction false} SplitClean(s: string, sep: char)
    requires sep !in s
    ensures Split(s, sep) == [s]
    decreases |s|
  {
    if s != [] {
      SplitClean(s[1..], sep);
      assert s == [s[0]] + s[1..];
    }
  }

  lemma GlueConcat(c: char, sep: char, rest: Path, more: Path)
    ensures Glue(c, sep, rest + more) == Glue(c, sep, rest) + more
  {
    assert (rest + more)[1..] == rest[1..] + more;
  }

  lemma {:induction false} SplitConcat(a: string, sep: char, b: string)
    ensures Split(a + [sep] + b, sep) == Split(a, sep) + Split(b, sep)
    decreases |a|
  {
    var s := a + [sep] + b;
    if a == [] {
      assert s[1..] == b;
    } else {
      assert s[1..] == a[1..] + [sep] + b;
      SplitConcat(a[1..], sep, b);
      GlueConcat(a[0], sep, Split(a[1..], sep), Split(b, sep));
    }
  }

  lemma SplitAt(a: string, sep: char, b: string)
    requires sep !in a
    ensures Split(a + [sep] + b, sep) == [a] + Split(b, sep)
  {
    SplitConcat(a, sep, b);
    SplitClean(a, sep);
  }

  lemma {:induction false} SplitPartsClean(s: string, sep: char)
    ensures forall part :: part in Split(s, sep) ==> sep !in part
    decreases |s|
  {
    if s != [] { SplitPartsClean(s[1..], sep); }
  }
}
