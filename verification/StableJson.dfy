/** Canonical JSON text: object keys sorted at every depth, two-space indentation, one
    newline at the end.

    A `Tree` is a JSON value with its object keys in the order they stand; `Denote` forgets
    that order. `leq` is the order in which the sorted keys come out, and `show` the text of
    a number. */
module StableJson {
  import opened Types
  import opened Sorting

  datatype Tree =
    | TNull
    | TBool(b: bool)
    | TNum(n: int)
    | TStr(s: string)
    | TArr(items: seq<Tree>)
    | TObj(entries: seq<Entry>)

  datatype Entry = Entry(key: string, value: Tree)

  // ---- What a tree means ---------------------------------------------------------------

  function Denote(t: Tree): Json
    decreases t, 0
  {
    match t
    case TNull => Null
    case TBool(b) => Bool(b)
    case TNum(n) => Num(n)
    case TStr(s) => Str(s)
    case TArr(items) => Arr(DenoteItems(items))
    case TObj(entries) => Obj(DenoteEntries(entries))
  }

  function DenoteItems(items: seq<Tree>): seq<Json>
    decreases items, 1
  {
    if items == [] then [] else [Denote(items[0])] + DenoteItems(items[1..])
  }

  function DenoteEntries(entries: seq<Entry>): map<string, Json>
    decreases entries, 1
  {
    if entries == [] then map[]
    else DenoteEntries(entries[1..])[entries[0].key := Denote(entries[0].value)]
  }

  function KeyOf(e: Entry): string {
    e.key
  }

  /** No object states a key twice. */
  predicate WellFormed(t: Tree)
    decreases t
  {
    match t
    case TArr(items) => forall i :: 0 <= i < |items| ==> WellFormed(items[i])
    case TObj(entries) => KeysDiffer(entries, KeyOf) && forall i :: 0 <= i < |entries| ==> WellFormed(entries[i].value)
    case _ => true
  }

  // ---- canonicalize ------------------------------------------------------------------------

  type KeyOrder = (string, string) -> bool

  function Canonical(t: Tree, leq: KeyOrder): Tree
    decreases t, 0
  {
    match t
    case TArr(items) => TArr(CanonicalItems(items, leq))
    case TObj(entries) => TObj(Sort(CanonicalEntries(entries, leq), By(KeyOf, leq)))
    case _ => t
  }

  function CanonicalItems(items: seq<Tree>, leq: KeyOrder): (r: seq<Tree>)
    ensures |r| == |items|
    ensures forall i :: 0 <= i < |items| ==> r[i] == Canonical(items[i], leq)
    decreases items, 1
  {
    if items == [] then [] else [Canonical(items[0], leq)] + CanonicalItems(items[1..], leq)
  }

  function CanonicalEntries(entries: seq<Entry>, leq: KeyOrder): (r: seq<Entry>)
    ensures |r| == |entries|
    ensures forall i :: 0 <= i < |entries| ==> r[i] == Entry(entries[i].key, Canonical(entries[i].value, leq))
    decreases entries, 1
  {
    if entries == [] then []
    else [Entry(entries[0].key, Canonical(entries[0].value, leq))] + CanonicalEntries(entries[1..], leq)
  }

  // ---- JSON.stringify(…, null, 2) ----------------------------------------------------------

  function HexDigit(n: int): char
    requires 0 <= n < 16
  {
    "0123456789abcdef"[n]
  }

  function Escape(c: char): (r: string)
    ensures r != [] && r[0] != '"'
  {
    if c == '"' || c == '\\' then ['\\', c]
    else if c == '\n' then "\\n"
    else if c == '\r' then "\\r"
    else if c == '\t' then "\\t"
    else if c as int == 8 then "\\b"
    else if c as int == 12 then "\\f"
    else if (c as int) < 32 then "\\u00" + [HexDigit(c as int / 16), HexDigit(c as int % 16)]
    else [c]
  }

  /** The escaped characters of `s`, a closing quote, and `rest`. */
  function StringThen(s: string, rest: string): string {
    if s == [] then ['"'] + rest else Escape(s[0]) + StringThen(s[1..], rest)
  }

  function Indent(depth: nat): string {
    seq(2 * depth, _ => ' ')
  }

  function LineBreak(depth: nat): string {
    ['\n'] + Indent(depth)
  }

  type NumberText = int -> string

  /** The text of `t` at `depth`, followed by `rest`. */
  function TextThen(t: Tree, depth: nat, show: NumberText, rest: string): string
    decreases t, 0
  {
    match t
    case TNull => "null" + rest
    case TBool(b) => (if b then "true" else "false") + rest
    case TNum(n) => show(n) + rest
    case TStr(s) => ['"'] + StringThen(s, rest)
    case TArr(items) =>
      if items == [] then "[]" + rest
      else ['['] + LineBreak(depth + 1)
           + TextThen(items[0], depth + 1, show, ItemsThen(items[1..], depth, show, rest))
    case TObj(entries) =>
      if entries == [] then "{}" + rest
      else ['{'] + LineBreak(depth + 1) + ['"']
           + StringThen(entries[0].key,
                        [':', ' '] + TextThen(entries[0].value, depth + 1, show,
                                              EntriesThen(entries[1..], depth, show, rest)))
  }

  /** The remaining items of an array, its closing bracket, and `rest`. */
  function ItemsThen(items: seq<Tree>, depth: nat, show: NumberText, rest: string): string
    decreases items, 1
  {
    if items == [] then LineBreak(depth) + [']'] + rest
    else [','] + LineBreak(depth + 1)
         + TextThen(items[0], depth + 1, show, ItemsThen(items[1..], depth, show, rest))
  }

  function EntriesThen(entries: seq<Entry>, depth: nat, show: NumberText, rest: string): string
    decreases entries, 1
  {
    if entries == [] then LineBreak(depth) + ['}'] + rest
    else [','] + LineBreak(depth + 1) + ['"']
         + StringThen(entries[0].key,
                      [':', ' '] + TextThen(entries[0].value, depth + 1, show,
                                            EntriesThen(entries[1..], depth, show, rest)))
  }

  function StableText(t: Tree, leq: KeyOrder, show: NumberText): string {
    TextThen(Canonical(t, leq), 0, show, "\n")
  }

  // ---- The text determines the tree ------------------------------------------------------------

  predicate NumberChar(c: char) {
    '0' <= c <= '9' || c == '-' || c == '+' || c == '.' || c == 'e' || c == 'E'
  }

  /** All that is needed of `show`: different numbers, different texts; and each text is made
      of digits, signs, points and exponents. */
  ghost predicate ShowsNumbers(show: NumberText) {
    && (forall x, y :: show(x) == show(y) ==> x == y)
    && (forall x :: show(x) != [] && forall i :: 0 <= i < |show(x)| ==> NumberChar(show(x)[i]))
  }

  predicate Delimited(rest: string) {
    rest == [] || !NumberChar(rest[0])
  }

  // ---- Reading JSON ----------------------------------------------------------------------------

  /* A reader of JSON text that knows nothing of the printer: any layout will do. */

  predicate Space(c: char) {
    c == ' ' || c == '\n' || c == '\r' || c == '\t'
  }

  function SkipSpace(s: string): (r: string)
    ensures |r| <= |s|
  {
    if s != [] && Space(s[0]) then SkipSpace(s[1..]) else s
  }

  function HexValue(c: char): Option<int> {
    if '0' <= c <= '9' then Some(c as int - '0' as int)
    else if 'a' <= c <= 'f' then Some(c as int - 'a' as int + 10)
    else if 'A' <= c <= 'F' then Some(c as int - 'A' as int + 10)
    else None
  }

  /** Four hexadecimal digits that name a character. */
  function ReadHex(s: string): Option<char>
    requires |s| == 4
  {
    var a, b, c, d := HexValue(s[0]), HexValue(s[1]), HexValue(s[2]), HexValue(s[3]);
    if a.None? || b.None? || c.None? || d.None? then None
    else
      var n := ((a.value * 16 + b.value) * 16 + c.value) * 16 + d.value;
      if 0 <= n < 0xD800 then Some(n as char) else None
  }

  /** The character behind a backslash, and what follows it. */
  function ReadEscape(s: string): (r: Option<(char, string)>)
    ensures r.Some? ==> |r.value.1| < |s|
  {
    if s == [] then None
    else if s[0] in {'"', '\\', '/'} then Some((s[0], s[1..]))
    else if s[0] == 'b' then Some((8 as char, s[1..]))
    else if s[0] == 'f' then Some((12 as char, s[1..]))
    else if s[0] == 'n' then Some(('\n', s[1..]))
    else if s[0] == 'r' then Some(('\r', s[1..]))
    else if s[0] == 't' then Some(('\t', s[1..]))
    else if s[0] == 'u' && |s| >= 5 && ReadHex(s[1..5]).Some? then Some((ReadHex(s[1..5]).value, s[5..]))
    else None
  }

  /** A string up to its closing quote, and what follows it. */
  function ReadString(s: string): (r: Option<(string, string)>)
    ensures r.Some? ==> |r.value.1| < |s|
    decreases |s|
  {
    if s == [] then None
    else if s[0] == '"' then Some(([], s[1..]))
    else
      var first := if s[0] == '\\' then ReadEscape(s[1..]) else if s[0] as int < 32 then None else Some((s[0], s[1..]));
      if first.None? then None
      else
        var rest := ReadString(first.value.1);
        if rest.None? then None else Some(([first.value.0] + rest.value.0, rest.value.1))
  }

  function NumberLength(s: string): (n: nat)
    ensures n <= |s|
  {
    if s != [] && NumberChar(s[0]) then 1 + NumberLength(s[1..]) else 0
  }

  type NumberReader = string -> Option<int>

  /** A value, and what follows it. */
  function ReadValue(s: string, num: NumberReader): (r: Option<(Tree, string)>)
    ensures r.Some? ==> |r.value.1| < |s|
    decreases |s|, 0
  {
    var t := SkipSpace(s);
    if t == [] then None
    else if t[0] == '"' then
      var r := ReadString(t[1..]);
      if r.None? then None else Some((TStr(r.value.0), r.value.1))
    else if t[0] == '[' then
      var u := SkipSpace(t[1..]);
      if u != [] && u[0] == ']' then Some((TArr([]), u[1..]))
      else
        var r := ReadItems(t[1..], num);
        if r.None? then None else Some((TArr(r.value.0), r.value.1))
    else if t[0] == '{' then
      var u := SkipSpace(t[1..]);
      if u != [] && u[0] == '}' then Some((TObj([]), u[1..]))
      else
        var r := ReadEntries(t[1..], num);
        if r.None? then None else Some((TObj(r.value.0), r.value.1))
    else if "null" <= t then Some((TNull, t[4..]))
    else if "true" <= t then Some((TBool(true), t[4..]))
    else if "false" <= t then Some((TBool(false), t[5..]))
    else
      var n := NumberLength(t);
      if n == 0 || num(t[..n]).None? then None else Some((TNum(num(t[..n]).value), t[n..]))
  }

  /** One item or more up to the closing bracket, and what follows it. */
  function ReadItems(s: string, num: NumberReader): (r: Option<(seq<Tree>, string)>)
    ensures r.Some? ==> |r.value.1| < |s|
    decreases |s|, 1
  {
    var first := ReadValue(s, num);
    if first.None? then None
    else
      var t := SkipSpace(first.value.1);
      if t == [] then None
      else if t[0] == ']' then Some(([first.value.0], t[1..]))
      else if t[0] != ',' then None
      else
        var rest := ReadItems(t[1..], num);
        if rest.None? then None else Some(([first.value.0] + rest.value.0, rest.value.1))
  }

  /** A key, a colon and a value, and what follows them. */
  function ReadEntry(s: string, num: NumberReader): (r: Option<(Entry, string)>)
    ensures r.Some? ==> |r.value.1| < |s|
    decreases |s|, 1
  {
    var t := SkipSpace(s);
    if t == [] || t[0] != '"' then None
    else
      var key := ReadString(t[1..]);
      if key.None? then None
      else
        var u := SkipSpace(key.value.1);
        if u == [] || u[0] != ':' then None
        else
          var v := ReadValue(u[1..], num);
          if v.None? then None else Some((Entry(key.value.0, v.value.0), v.value.1))
  }

  /** One entry or more up to the closing brace, and what follows it. */
  function ReadEntries(s: string, num: NumberReader): (r: Option<(seq<Entry>, string)>)
    ensures r.Some? ==> |r.value.1| < |s|
    decreases |s|, 2
  {
    var first := ReadEntry(s, num);
    if first.None? then None
    else
      var t := SkipSpace(first.value.1);
      if t == [] then None
      else if t[0] == '}' then Some(([first.value.0], t[1..]))
      else if t[0] != ',' then None
      else
        var rest := ReadEntries(t[1..], num);
        if rest.None? then None else Some(([first.value.0] + rest.value.0, rest.value.1))
  }

  // ---- What is printed is read back ---------------------------------------------------------------

  ghost predicate ReadsNumbers(num: NumberReader, show: NumberText) {
    forall n :: num(show(n)) == Some(n)
  }

  /** There is a reader for the numbers of any faithful text. */
  ghost function NumbersOf(show: NumberText): NumberReader {
    (s: string) => if exists n :: show(n) == s then (var n :| show(n) == s; Some(n)) else None
  }

  lemma {:induction false} SkipsLineBreak(depth: nat, x: string)
    requires x != [] && !Space(x[0])
    ensures SkipSpace(LineBreak(depth) + x) == x
    decreases depth
  {
    SkipsSpaces(2 * depth, x);
    assert (LineBreak(depth) + x)[1..] == Indent(depth) + x;
  }

  lemma {:induction false} SkipsSpaces(n: nat, x: string)
    requires x != [] && !Space(x[0])
    ensures SkipSpace(seq(n, _ => ' ') + x) == x
  {
    if n == 0 {
      assert seq(n, _ => ' ') + x == x;
    } else {
      SkipsSpaces(n - 1, x);
      assert (seq(n, _ => ' ') + x)[1..] == seq(n - 1, _ => ' ') + x;
    }
  }

  lemma HexReads(n: int)
    requires 0 <= n < 16
    ensures HexValue(HexDigit(n)) == Some(n)
  {
  }

  lemma {:induction false} EscapeReads(c: char, x: string)
    ensures if c == '"' || c == '\\' || c as int < 32
            then Escape(c)[0] == '\\' && ReadEscape((Escape(c) + x)[1..]) == Some((c, x))
            else Escape(c) == [c]
  {
    var s := (Escape(c) + x)[1..];
    if |Escape(c)| == 2 {
      assert s[0] == Escape(c)[1] && s[1..] == x;
    } else if |Escape(c)| == 6 {
      var high, low := c as int / 16, c as int % 16;
      HexReads(high);
      HexReads(low);
      assert s[0] == 'u' && s[1..5] == ['0', '0', HexDigit(high), HexDigit(low)] && s[5..] == x;
      assert HexValue('0') == Some(0);
    }
  }

  lemma {:induction false} StringReads(s: string, rest: string)
    ensures ReadString(StringThen(s, rest)) == Some((s, rest))
  {
    if s == [] {
      assert (['"'] + rest)[1..] == rest;
    } else {
      var c, tail := s[0], StringThen(s[1..], rest);
      EscapeReads(c, tail);
      StringReads(s[1..], rest);
      var t := Escape(c) + tail;
      assert t[0] == Escape(c)[0];
      if t[0] != '\\' { assert t[1..] == tail; }
      assert s == [c] + s[1..];
    }
  }

  lemma {:induction false} NumberReads(p: string, rest: string)
    requires Delimited(rest) && forall i :: 0 <= i < |p| ==> NumberChar(p[i])
    ensures NumberLength(p + rest) == |p|
  {
    if p == [] {
      assert p + rest == rest;
    } else {
      assert (p + rest)[1..] == p[1..] + rest;
      NumberReads(p[1..], rest);
    }
  }

  /** What the texts of values have in common: how they do not start. */
  lemma TextStarts(t: Tree, depth: nat, show: NumberText, rest: string)
    requires ShowsNumbers(show)
    ensures TextThen(t, depth, show, rest) != [] && !Space(TextThen(t, depth, show, rest)[0])
    ensures TextThen(t, depth, show, rest)[0] != ']'
    ensures SkipSpace(TextThen(t, depth, show, rest)) == TextThen(t, depth, show, rest)
  {
    if t.TNum? { assert NumberChar(show(t.n)[0]); }
  }

  lemma {:induction false} LiteralReads(t: Tree, word: string, rest: string, num: NumberReader)
    requires word == match t case TNull => "null" case TBool(b) => (if b then "true" else "false") case _ => ""
    requires word != ""
    ensures ReadValue(word + rest, num) == Some((t, rest))
  {
    var s := word + rest;
    assert s[0] == word[0] && s[..|word|] == word && s[|word|..] == rest;
    assert SkipSpace(s) == s;
  }

  lemma {:induction false} NumberIsRead(n: int, show: NumberText, rest: string, num: NumberReader)
    requires ShowsNumbers(show) && ReadsNumbers(num, show) && Delimited(rest)
    ensures ReadValue(show(n) + rest, num) == Some((TNum(n), rest))
  {
    var s := show(n) + rest;
    assert NumberChar(show(n)[0]) && s[0] == show(n)[0];
    NumberReads(show(n), rest);
    assert s[..|show(n)|] == show(n) && s[|show(n)|..] == rest;
    assert SkipSpace(s) == s;
  }

  lemma {:induction false} ValueReads(t: Tree, depth: nat, show: NumberText, num: NumberReader, rest: string)
    requires ShowsNumbers(show) && ReadsNumbers(num, show) && Delimited(rest)
    ensures ReadValue(TextThen(t, depth, show, rest), num) == Some((t, rest))
    decreases t, 0
  {
    match t
    case TNull => LiteralReads(t, "null", rest, num);
    case TBool(b) => LiteralReads(t, if b then "true" else "false", rest, num);
    case TNum(n) => NumberIsRead(n, show, rest, num);
    case TStr(s) =>
      StringReads(s, rest);
      assert (['"'] + StringThen(s, rest))[1..] == StringThen(s, rest);
    case TArr(items) => ArrayReads(items, depth, show, num, rest);
    case TObj(entries) => ObjectReads(entries, depth, show, num, rest);
  }

  lemma {:induction false} ArrayReads(items: seq<Tree>, depth: nat, show: NumberText, num: NumberReader, rest: string)
    requires ShowsNumbers(show) && ReadsNumbers(num, show) && Delimited(rest)
    ensures ReadValue(TextThen(TArr(items), depth, show, rest), num) == Some((TArr(items), rest))
    decreases items, 3
  {
    var s := TextThen(TArr(items), depth, show, rest);
    if items == [] {
      assert s[0] == '[' && s[1..] == "]" + rest && (s[1..])[1..] == rest;
    } else {
      var text := TextThen(items[0], depth + 1, show, ItemsThen(items[1..], depth, show, rest));
      ArrayText(items, depth, show, rest);
      TextStarts(items[0], depth + 1, show, ItemsThen(items[1..], depth, show, rest));
      SkipsLineBreak(depth + 1, text);
      ItemsRead(items, depth, show, num, rest);
      ArrayStep(s, num, ItemsText(items, depth, show, rest));
    }
  }

  lemma {:induction false} ArrayText(items: seq<Tree>, depth: nat, show: NumberText, rest: string)
    requires items != []
    ensures TextThen(TArr(items), depth, show, rest) == ['['] + ItemsText(items, depth, show, rest)
  {
  }

  lemma {:induction false} ArrayStep(s: string, num: NumberReader, items: string)
    requires s == ['['] + items && ReadItems(items, num).Some?
    requires SkipSpace(items) != [] && SkipSpace(items)[0] != ']'
    ensures ReadValue(s, num) == Some((TArr(ReadItems(items, num).value.0), ReadItems(items, num).value.1))
  {
    assert s[0] == '[' && s[1..] == items && SkipSpace(s) == s;
  }

  lemma ReadsBehindSpace(s: string, t: string, num: NumberReader)
    requires SkipSpace(s) == SkipSpace(t)
    ensures ReadValue(s, num) == ReadValue(t, num)
  {
  }

  lemma {:induction false} ItemsStep(s: string, num: NumberReader, t: Tree, behind: string, others: seq<Tree>,
                                     more: string, rest: string)
    requires ReadValue(s, num) == Some((t, behind))
    requires if others == [] then SkipSpace(behind) == [']'] + rest
             else SkipSpace(behind) == [','] + more && ReadItems(more, num) == Some((others, rest))
    ensures ReadItems(s, num) == Some(([t] + others, rest))
  {
    if others == [] {
      assert ([']'] + rest)[1..] == rest && [t] + others == [t];
    } else {
      assert ([','] + more)[1..] == more;
    }
  }

  /** The items of an array, the first of them behind a line break. */
  function ItemsText(items: seq<Tree>, depth: nat, show: NumberText, rest: string): string
    requires items != []
  {
    LineBreak(depth + 1) + TextThen(items[0], depth + 1, show, ItemsThen(items[1..], depth, show, rest))
  }

  lemma JoinedThrice(a: string, b: string, c: string)
    ensures a + b + c == a + (b + c)
  {
  }

  lemma {:induction false} BehindItem(items: seq<Tree>, depth: nat, show: NumberText, rest: string)
    ensures SkipSpace(ItemsThen(items, depth, show, rest))
         == if items == [] then [']'] + rest else [','] + ItemsText(items, depth, show, rest)
  {
    if items == [] {
      SkipsLineBreak(depth, [']'] + rest);
      JoinedThrice(LineBreak(depth), [']'], rest);
    } else {
      JoinedThrice([','], LineBreak(depth + 1),
                   TextThen(items[0], depth + 1, show, ItemsThen(items[1..], depth, show, rest)));
    }
  }

  lemma {:induction false} ItemReads(t: Tree, depth: nat, show: NumberText, num: NumberReader, behind: string)
    requires ShowsNumbers(show) && ReadsNumbers(num, show) && Delimited(behind)
    ensures ReadValue(LineBreak(depth + 1) + TextThen(t, depth + 1, show, behind), num) == Some((t, behind))
    decreases t, 1
  {
    var text := TextThen(t, depth + 1, show, behind);
    TextStarts(t, depth + 1, show, behind);
    SkipsLineBreak(depth + 1, text);
    ReadsBehindSpace(LineBreak(depth + 1) + text, text, num);
    ValueReads(t, depth + 1, show, num, behind);
  }

  lemma {:induction false} ItemsRead(items: seq<Tree>, depth: nat, show: NumberText, num: NumberReader, rest: string)
    requires ShowsNumbers(show) && ReadsNumbers(num, show) && Delimited(rest) && items != []
    ensures ReadItems(ItemsText(items, depth, show, rest), num) == Some((items, rest))
    decreases items, 2
  {
    var first, others := items[0], items[1..];
    var behind := ItemsThen(others, depth, show, rest);
    ItemsDelimited(others, depth, show, rest);
    ItemReads(first, depth, show, num, behind);
    BehindItem(others, depth, show, rest);
    assert items == [first] + others;
    var more := if others == [] then "" else ItemsText(others, depth, show, rest);
    if others != [] { ItemsRead(others, depth, show, num, rest); }
    ItemsStep(ItemsText(items, depth, show, rest), num, first, behind, others, more, rest);
  }

  lemma ItemsDelimited(items: seq<Tree>, depth: nat, show: NumberText, rest: string)
    ensures Delimited(ItemsThen(items, depth, show, rest))
  {
  }

  /** The entries of an object, the first of them behind a line break. */
  function EntriesText(entries: seq<Entry>, depth: nat, show: NumberText, rest: string): string
    requires entries != []
  {
    LineBreak(depth + 1) + (['"'] + EntryText(entries[0], depth, show, EntriesThen(entries[1..], depth, show, rest)))
  }

  /** One entry behind its opening quote, and what follows it. */
  function EntryText(e: Entry, depth: nat, show: NumberText, behind: string): string {
    StringThen(e.key, [':', ' '] + TextThen(e.value, depth + 1, show, behind))
  }

  lemma {:induction false} ObjectReads(entries: seq<Entry>, depth: nat, show: NumberText, num: NumberReader,
                                       rest: string)
    requires ShowsNumbers(show) && ReadsNumbers(num, show) && Delimited(rest)
    ensures ReadValue(TextThen(TObj(entries), depth, show, rest), num) == Some((TObj(entries), rest))
    decreases entries, 3
  {
    var s := TextThen(TObj(entries), depth, show, rest);
    if entries == [] {
      assert s[0] == '{' && s[1..] == "}" + rest && (s[1..])[1..] == rest;
    } else {
      var e := ['"'] + EntryText(entries[0], depth, show, EntriesThen(entries[1..], depth, show, rest));
      ObjectText(entries, depth, show, rest);
      SkipsLineBreak(depth + 1, e);
      EntriesRead(entries, depth, show, num, rest);
      ObjectStep(s, num, EntriesText(entries, depth, show, rest));
    }
  }

  lemma {:induction false} ObjectText(entries: seq<Entry>, depth: nat, show: NumberText, rest: string)
    requires entries != []
    ensures TextThen(TObj(entries), depth, show, rest) == ['{'] + EntriesText(entries, depth, show, rest)
  {
  }

  lemma {:induction false} ObjectStep(s: string, num: NumberReader, entries: string)
    requires s == ['{'] + entries && ReadEntries(entries, num).Some?
    requires SkipSpace(entries) != [] && SkipSpace(entries)[0] != '}'
    ensures ReadValue(s, num) == Some((TObj(ReadEntries(entries, num).value.0), ReadEntries(entries, num).value.1))
  {
    assert s[0] == '{' && s[1..] == entries && SkipSpace(s) == s;
  }

  lemma {:induction false} EntryStep(s: string, num: NumberReader, key: string, text: string)
    requires SkipSpace(s) == ['"'] + StringThen(key, [':', ' '] + text) && SkipSpace(text) == text
    requires ReadValue(text, num).Some?
    ensures ReadEntry(s, num) == Some((Entry(key, ReadValue(text, num).value.0), ReadValue(text, num).value.1))
  {
    var t := SkipSpace(s);
    assert t[0] == '"' && t[1..] == StringThen(key, [':', ' '] + text);
    StringReads(key, [':', ' '] + text);
    var u := [':', ' '] + text;
    assert SkipSpace(u) == u && u[1..] == [' '] + text && ([' '] + text)[1..] == text;
    ReadsBehindSpace(u[1..], text, num);
  }

  lemma {:induction false} EntryReads(e: Entry, depth: nat, show: NumberText, num: NumberReader, behind: string)
    requires ShowsNumbers(show) && ReadsNumbers(num, show) && Delimited(behind)
    ensures ReadEntry(LineBreak(depth + 1) + (['"'] + EntryText(e, depth, show, behind)), num) == Some((e, behind))
    decreases e, 1
  {
    var text := TextThen(e.value, depth + 1, show, behind);
    SkipsLineBreak(depth + 1, ['"'] + EntryText(e, depth, show, behind));
    TextStarts(e.value, depth + 1, show, behind);
    ValueReads(e.value, depth + 1, show, num, behind);
    EntryStep(LineBreak(depth + 1) + (['"'] + EntryText(e, depth, show, behind)), num, e.key, text);
  }

  lemma {:induction false} EntriesStep(s: string, num: NumberReader, e: Entry, behind: string, others: seq<Entry>,
                                       more: string, rest: string)
    requires ReadEntry(s, num) == Some((e, behind))
    requires if others == [] then SkipSpace(behind) == ['}'] + rest
             else SkipSpace(behind) == [','] + more && ReadEntries(more, num) == Some((others, rest))
    ensures ReadEntries(s, num) == Some(([e] + others, rest))
  {
    if others == [] {
      assert (['}'] + rest)[1..] == rest && [e] + others == [e];
    } else {
      assert ([','] + more)[1..] == more;
    }
  }

  lemma {:induction false} BehindEntry(entries: seq<Entry>, depth: nat, show: NumberText, rest: string)
    ensures SkipSpace(EntriesThen(entries, depth, show, rest))
         == if entries == [] then ['}'] + rest else [','] + EntriesText(entries, depth, show, rest)
  {
    if entries == [] {
      SkipsLineBreak(depth, ['}'] + rest);
      JoinedThrice(LineBreak(depth), ['}'], rest);
    } else {
      var text := EntryText(entries[0], depth, show, EntriesThen(entries[1..], depth, show, rest));
      JoinedThrice([','], LineBreak(depth + 1), ['"'] + text);
      JoinedThrice([','] + LineBreak(depth + 1), ['"'], text);
    }
  }

  lemma {:induction false} EntriesRead(entries: seq<Entry>, depth: nat, show: NumberText, num: NumberReader,
                                       rest: string)
    requires ShowsNumbers(show) && ReadsNumbers(num, show) && Delimited(rest) && entries != []
    ensures ReadEntries(EntriesText(entries, depth, show, rest), num) == Some((entries, rest))
    decreases entries, 2
  {
    var first, others := entries[0], entries[1..];
    var behind := EntriesThen(others, depth, show, rest);
    EntriesDelimited(others, depth, show, rest);
    EntryReads(first, depth, show, num, behind);
    BehindEntry(others, depth, show, rest);
    assert entries == [first] + others;
    var more := if others == [] then "" else EntriesText(others, depth, show, rest);
    if others != [] { EntriesRead(others, depth, show, num, rest); }
    EntriesStep(EntriesText(entries, depth, show, rest), num, first, behind, others, more, rest);
  }

  lemma EntriesDelimited(entries: seq<Entry>, depth: nat, show: NumberText, rest: string)
    ensures Delimited(EntriesThen(entries, depth, show, rest))
  {
  }

  /** Read by a reader of JSON, the text is the canonical tree, and nothing is left of it but
      the newline at its end. */
  lemma TextReadsBack(t: Tree, leq: KeyOrder, show: NumberText, num: NumberReader)
    requires ShowsNumbers(show) && ReadsNumbers(num, show)
    ensures ReadValue(StableText(t, leq, show), num) == Some((Canonical(t, leq), "\n"))
  {
    ValueReads(Canonical(t, leq), 0, show, num, "\n");
  }

  /** So nothing but the canonical tree shows in the text, and all of it does. */
  lemma TextIsCanonicalTree(a: Tree, b: Tree, leq: KeyOrder, show: NumberText)
    requires ShowsNumbers(show)
    ensures StableText(a, leq, show) == StableText(b, leq, show) <==> Canonical(a, leq) == Canonical(b, leq)
  {
    var num := NumbersOf(show);
    forall n ensures num(show(n)) == Some(n) {}
    TextReadsBack(a, leq, show, num);
    TextReadsBack(b, leq, show, num);
  }

  // ---- How the text is laid out ---------------------------------------------------------------------

  lemma LineBreaks()
    ensures LineBreak(0) == "\n" && LineBreak(1) == "\n  " && LineBreak(2) == "\n    "
  {
  }

  /** Two spaces a level, and one line an item. */
  lemma {:induction false} ArrayLaidOut(x: Tree, y: Tree, show: NumberText, rest: string)
    ensures TextThen(TArr([x, y]), 1, show, rest)
         == "[\n    " + TextThen(x, 2, show, ",\n    " + TextThen(y, 2, show, "\n  ]" + rest))
  {
    LineBreaks();
    assert [x, y][1..] == [y] && [y][1..] == [];
    assert ItemsThen([], 1, show, rest) == "\n  ]" + rest;
    assert ItemsThen([y], 1, show, rest) == ",\n    " + TextThen(y, 2, show, "\n  ]" + rest);
  }

  /** And so are the entries of an object, a space behind each colon. */
  lemma {:induction false} ObjectLaidOut(key: string, x: Tree, show: NumberText)
    ensures TextThen(TObj([Entry(key, x)]), 0, show, "\n")
         == "{\n  \"" + StringThen(key, ": " + TextThen(x, 1, show, "\n}\n"))
  {
    LineBreaks();
    assert [Entry(key, x)][1..] == [];
    assert EntriesThen([], 0, show, "\n") == "\n}\n";
  }

  /** The keys of every object, at any depth, come in order. */
  ghost predicate InOrder(t: Tree, leq: KeyOrder)
    decreases t
  {
    match t
    case TArr(items) => forall i :: 0 <= i < |items| ==> InOrder(items[i], leq)
    case TObj(entries) =>
      && (forall i, j :: 0 <= i < j < |entries| ==> leq(entries[i].key, entries[j].key))
      && forall i :: 0 <= i < |entries| ==> InOrder(entries[i].value, leq)
    case _ => true
  }

  lemma {:induction false} CanonicalInOrder(t: Tree, leq: KeyOrder)
    requires TotalPreorder(leq)
    ensures InOrder(Canonical(t, leq), leq)
    decreases t
  {
    match t
    case TArr(items) =>
      forall i | 0 <= i < |items| ensures InOrder(Canonical(items[i], leq), leq) { CanonicalInOrder(items[i], leq); }
    case TObj(entries) =>
      var c := CanonicalEntries(entries, leq);
      forall i | 0 <= i < |entries| ensures InOrder(c[i].value, leq) { CanonicalInOrder(entries[i].value, leq); }
      EntriesInOrder(c, leq);
    case _ =>
  }

  lemma {:induction false} EntriesInOrder(entries: seq<Entry>, leq: KeyOrder)
    requires TotalPreorder(leq) && forall i :: 0 <= i < |entries| ==> InOrder(entries[i].value, leq)
    ensures InOrder(TObj(Sort(entries, By(KeyOf, leq))), leq)
  {
    var r := Sort(entries, By(KeyOf, leq));
    ByOrder(KeyOf, leq);
    SortSorted(entries, By(KeyOf, leq));
    SortMembers(entries, By(KeyOf, leq));
    forall i, j | 0 <= i < j < |r| ensures leq(r[i].key, r[j].key) { assert By(KeyOf, leq)(r[i], r[j]); }
    forall i | 0 <= i < |r| ensures InOrder(r[i].value, leq) {
      assert r[i] in entries;
      var n :| 0 <= n < |entries| && entries[n] == r[i];
    }
  }

  // ---- Equal text means equal up to key order ---------------------------------------------------

  lemma {:induction false} DenoteItemsAt(items: seq<Tree>)
    ensures |DenoteItems(items)| == |items|
    ensures forall i :: 0 <= i < |items| ==> DenoteItems(items)[i] == Denote(items[i])
  {
    if items != [] { DenoteItemsAt(items[1..]); }
  }

  /** Without repeated keys the order of the entries does not matter to the record. */
  lemma {:induction false} DenoteEntriesAt(entries: seq<Entry>)
    requires KeysDiffer(entries, KeyOf)
    ensures forall k :: k in DenoteEntries(entries) <==> HasKey(entries, KeyOf, k)
    ensures forall i :: 0 <= i < |entries| ==>
              && entries[i].key in DenoteEntries(entries)
              && DenoteEntries(entries)[entries[i].key] == Denote(entries[i].value)
  {
    if entries != [] {
      var rest := entries[1..];
      DenoteEntriesAt(rest);
      assert entries == [entries[0]] + rest;
      forall k ensures k in DenoteEntries(entries) <==> HasKey(entries, KeyOf, k) {
        JoinedHasKey([entries[0]], rest, KeyOf, k);
        assert [entries[0]][0] == entries[0];
      }
      forall i | 0 <= i < |entries|
        ensures entries[i].key in DenoteEntries(entries)
        ensures DenoteEntries(entries)[entries[i].key] == Denote(entries[i].value)
      {
        if i > 0 { assert rest[i - 1] == entries[i] && entries[0].key != entries[i].key; }
      }
    }
  }

  ghost predicate SameEntries(a: seq<Entry>, b: seq<Entry>) {
    forall e :: e in a <==> e in b
  }

  /** Values that differ only in key order have one canonical form. */
  lemma {:induction false} SameMeaningSameCanonical(a: Tree, b: Tree, leq: KeyOrder)
    requires TotalPreorder(leq) && Antisymmetric(leq)
    requires WellFormed(a) && WellFormed(b) && Denote(a) == Denote(b)
    ensures Canonical(a, leq) == Canonical(b, leq)
    decreases a
  {
    match a
    case TArr(items) =>
      DenoteItemsAt(items);
      DenoteItemsAt(b.items);
      assert |items| == |b.items|;
      forall i | 0 <= i < |items| ensures Canonical(items[i], leq) == Canonical(b.items[i], leq) {
        assert DenoteItems(items)[i] == DenoteItems(b.items)[i];
        SameMeaningSameCanonical(items[i], b.items[i], leq);
      }
      assert CanonicalItems(items, leq) == CanonicalItems(b.items, leq);
    case TObj(entries) =>
      forall i, j | 0 <= i < |entries| && 0 <= j < |b.entries| && entries[i].key == b.entries[j].key
        ensures Canonical(entries[i].value, leq) == Canonical(b.entries[j].value, leq)
      {
        DenoteEntriesAt(entries);
        DenoteEntriesAt(b.entries);
        assert DenoteEntries(entries)[entries[i].key] == DenoteEntries(b.entries)[b.entries[j].key];
        SameMeaningSameCanonical(entries[i].value, b.entries[j].value, leq);
      }
      MatchedEntriesSame(entries, b.entries, leq);
      SameMembersSameSort(CanonicalEntries(entries, leq), CanonicalEntries(b.entries, leq), KeyOf, leq);
    case _ =>
  }

  ghost predicate ValuesMatch(a: seq<Entry>, b: seq<Entry>, leq: KeyOrder) {
    forall i, j :: 0 <= i < |a| && 0 <= j < |b| && a[i].key == b[j].key ==>
      Canonical(a[i].value, leq) == Canonical(b[j].value, leq)
  }

  lemma MatchedEntriesSame(a: seq<Entry>, b: seq<Entry>, leq: KeyOrder)
    requires KeysDiffer(a, KeyOf) && KeysDiffer(b, KeyOf) && DenoteEntries(a) == DenoteEntries(b)
    requires ValuesMatch(a, b, leq)
    ensures KeysDiffer(CanonicalEntries(a, leq), KeyOf) && KeysDiffer(CanonicalEntries(b, leq), KeyOf)
    ensures SameEntries(CanonicalEntries(a, leq), CanonicalEntries(b, leq))
  {
    forall e | e in CanonicalEntries(a, leq) ensures e in CanonicalEntries(b, leq) {
      MatchedEntryIn(a, b, leq, e);
    }
    assert ValuesMatch(b, a, leq);
    forall e | e in CanonicalEntries(b, leq) ensures e in CanonicalEntries(a, leq) {
      MatchedEntryIn(b, a, leq, e);
    }
  }

  lemma MatchedEntryIn(a: seq<Entry>, b: seq<Entry>, leq: KeyOrder, e: Entry)
    requires KeysDiffer(a, KeyOf) && KeysDiffer(b, KeyOf) && DenoteEntries(a) == DenoteEntries(b)
    requires ValuesMatch(a, b, leq) && e in CanonicalEntries(a, leq)
    ensures e in CanonicalEntries(b, leq)
  {
    DenoteEntriesAt(a);
    DenoteEntriesAt(b);
    var i :| 0 <= i < |a| && CanonicalEntries(a, leq)[i] == e;
    assert a[i].key in DenoteEntries(b);
    assert HasKey(b, KeyOf, a[i].key);
    var j :| 0 <= j < |b| && b[j].key == a[i].key;
    assert CanonicalEntries(b, leq)[j] == e;
  }

  lemma SameEntriesSameDenote(a: seq<Entry>, b: seq<Entry>)
    requires KeysDiffer(a, KeyOf) && KeysDiffer(b, KeyOf) && SameEntries(a, b)
    ensures DenoteEntries(a) == DenoteEntries(b)
  {
    var m, n := DenoteEntries(a), DenoteEntries(b);
    DenoteEntriesAt(a);
    DenoteEntriesAt(b);
    forall k | k in m ensures k in n && m[k] == n[k] { EntryCarriesOver(a, b, k); }
    forall k | k in n ensures k in m { EntryCarriesOver(b, a, k); }
  }

  lemma EntryCarriesOver(a: seq<Entry>, b: seq<Entry>, k: string)
    requires KeysDiffer(a, KeyOf) && KeysDiffer(b, KeyOf) && SameEntries(a, b) && HasKey(a, KeyOf, k)
    ensures k in DenoteEntries(a) && k in DenoteEntries(b) && DenoteEntries(a)[k] == DenoteEntries(b)[k]
  {
    DenoteEntriesAt(a);
    DenoteEntriesAt(b);
    var i :| 0 <= i < |a| && a[i].key == k;
    assert a[i] in b;
    var j :| 0 <= j < |b| && b[j] == a[i];
  }

  /** Sorting keys changes no value. */
  lemma {:induction false} CanonicalKeepsMeaning(t: Tree, leq: KeyOrder)
    requires WellFormed(t)
    ensures Denote(Canonical(t, leq)) == Denote(t)
    decreases t
  {
    match t
    case TArr(items) =>
      var c := CanonicalItems(items, leq);
      DenoteItemsAt(items);
      DenoteItemsAt(c);
      forall i | 0 <= i < |items| ensures Denote(c[i]) == Denote(items[i]) { CanonicalKeepsMeaning(items[i], leq); }
      assert DenoteItems(c) == DenoteItems(items);
    case TObj(entries) =>
      var c := CanonicalEntries(entries, leq);
      forall i | 0 <= i < |entries| ensures Denote(c[i].value) == Denote(entries[i].value) {
        CanonicalKeepsMeaning(entries[i].value, leq);
      }
      EntrywiseSameDenote(c, entries);
      SortKeepsKeysDifferent(c, KeyOf, By(KeyOf, leq));
      SameEntriesSameDenote(Sort(c, By(KeyOf, leq)), c);
    case _ =>
  }

  lemma {:induction false} EntrywiseSameDenote(a: seq<Entry>, b: seq<Entry>)
    requires |a| == |b|
    requires forall i :: 0 <= i < |a| ==> a[i].key == b[i].key && Denote(a[i].value) == Denote(b[i].value)
    ensures DenoteEntries(a) == DenoteEntries(b)
  {
    if a != [] { EntrywiseSameDenote(a[1..], b[1..]); }
  }

  /** Two values have the same text exactly when they differ only in the order of keys. */
  lemma SameTextIffSameMeaning(a: Tree, b: Tree, leq: KeyOrder, show: NumberText)
    requires ShowsNumbers(show) && TotalPreorder(leq) && Antisymmetric(leq)
    requires WellFormed(a) && WellFormed(b)
    ensures StableText(a, leq, show) == StableText(b, leq, show) <==> Denote(a) == Denote(b)
  {
    TextIsCanonicalTree(a, b, leq, show);
    CanonicalKeepsMeaning(a, leq);
    CanonicalKeepsMeaning(b, leq);
    if Denote(a) == Denote(b) { SameMeaningSameCanonical(a, b, leq); }
  }

  /** The text hides key order for all values exactly when the order of keys has no ties:
      a collation that finds two different keys equal lets their order through. */
  lemma HidesKeyOrderIff(leq: KeyOrder, show: NumberText)
    requires ShowsNumbers(show) && TotalPreorder(leq)
    ensures (forall a, b :: WellFormed(a) && WellFormed(b) && Denote(a) == Denote(b) ==>
               StableText(a, leq, show) == StableText(b, leq, show))
       <==> Antisymmetric(leq)
  {
    if Antisymmetric(leq) {
      forall a, b | WellFormed(a) && WellFormed(b) && Denote(a) == Denote(b)
        ensures StableText(a, leq, show) == StableText(b, leq, show)
      {
        SameTextIffSameMeaning(a, b, leq, show);
      }
    } else {
      var x, y :| leq(x, y) && leq(y, x) && x != y;
      var a, b := TObj([Entry(x, TNull), Entry(y, TNull)]), TObj([Entry(y, TNull), Entry(x, TNull)]);
      assert WellFormed(a) && WellFormed(b);
      SameEntriesSameDenote(a.entries, b.entries);
      assert Denote(a) == Denote(b);
      TiedPairStays(Entry(x, TNull), Entry(y, TNull), leq);
      TiedPairStays(Entry(y, TNull), Entry(x, TNull), leq);
      TextIsCanonicalTree(a, b, leq, show);
      assert StableText(a, leq, show) != StableText(b, leq, show);
    }
  }

  lemma TiedPairStays(e: Entry, f: Entry, leq: KeyOrder)
    requires leq(e.key, f.key) && e.value == TNull && f.value == TNull
    ensures Canonical(TObj([e, f]), leq) == TObj([e, f])
  {
    assert CanonicalEntries([e, f], leq) == [e, f];
    assert [e, f][1..] == [f] && [f][1..] == [];
    assert Sort([f], By(KeyOf, leq)) == [f];
  }
}
