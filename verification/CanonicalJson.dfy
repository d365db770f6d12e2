/** The canonical printer behind every payload hash: JSON text with sorted object keys. */
module CanonicalJson {
  import opened Text

  // ---- values as the host holds them ----

  predicate NumberChar(c: char) {
    IsDigit(c) || c == '-' || c == '+' || c == '.' || c == 'e'
  }

  /** The text of a finite number. */
  type NumberToken = s: string | s != "" && (IsDigit(s[0]) || s[0] == '-') && forall i | 0 <= i < |s| :: NumberChar(s[i])
    witness "0"

  /** Objects and arrays are known by reference, so that they can be shared or circular. */
  datatype Value =
    | Null | Undefined | Callable | BigInt | NonFinite
    | Bool(b: bool) | Num(token: NumberToken) | Str(s: string) | Obj(ref: nat)

  datatype Node = ArrayNode(items: seq<Value>) | ObjectNode(entries: seq<(string, Value)>)

  type Heap = map<nat, Node>

  datatype WriteError = NonFiniteNumber | BigIntValue | Circular

  predicate InHeap(heap: Heap, v: Value) {
    v.Obj? ==> v.ref in heap
  }

  function ChildrenOf(node: Node): seq<Value> {
    match node
    case ArrayNode(items) => items
    case ObjectNode(entries) => seq(|entries|, i requires 0 <= i < |entries| => entries[i].1)
  }

  predicate DistinctKeys(entries: seq<(string, Value)>) {
    forall i, j | 0 <= i < j < |entries| :: entries[i].0 != entries[j].0
  }

  /** Every reference leads somewhere, and no object has a key twice. */
  ghost predicate WellFormed(heap: Heap) {
    && (forall r | r in heap :: forall v | v in ChildrenOf(heap[r]) :: InHeap(heap, v))
    && (forall r | r in heap && heap[r].ObjectNode? :: DistinctKeys(heap[r].entries))
  }

  // ---- strings ----

  function HexDigit(d: nat): char
    requires d < 16
  {
    if d < 10 then '0' + d as char else 'a' + (d - 10) as char
  }

  function Escape(c: char): string {
    if c == '"' then "\\\""
    else if c == '\\' then "\\\\"
    else if c == '\U{8}' then "\\b"
    else if c == '\U{C}' then "\\f"
    else if c == '\n' then "\\n"
    else if c == '\r' then "\\r"
    else if c == '\t' then "\\t"
    else if c < ' ' then "\\u00" + [HexDigit(c as int / 16), HexDigit(c as int % 16)]
    else [c]
  }

  function EscapeAll(s: string): string {
    if s == "" then "" else Escape(s[0]) + EscapeAll(s[1..])
  }

  /** JSON.stringify of a string */
  function Quote(s: string): string {
    "\"" + EscapeAll(s) + "\""
  }

  // ---- key order ----

  predicate Less(a: string, b: string) {
    b != "" && (a == "" || a[0] < b[0] || (a[0] == b[0] && Less(a[1..], b[1..])))
  }

  predicate Kept(v: Value) {
    !v.Undefined? && !v.Callable?
  }

  function KeptEntries(entries: seq<(string, Value)>): seq<(string, Value)> {
    if entries == [] then []
    else (if Kept(entries[0].1) then [entries[0]] else []) + KeptEntries(entries[1..])
  }

  function Insert(e: (string, Value), sorted: seq<(string, Value)>): seq<(string, Value)> {
    if sorted == [] || !Less(sorted[0].0, e.0) then [e] + sorted
    else [sorted[0]] + Insert(e, sorted[1..])
  }

  function Sort(entries: seq<(string, Value)>): seq<(string, Value)> {
    if entries == [] then [] else Insert(entries[0], Sort(entries[1..]))
  }

  // ---- the printer ----

  function Pairs(entries: seq<(string, Value)>, texts: seq<string>): seq<string>
    requires |texts| == |entries|
  {
    seq(|entries|, i requires 0 <= i < |entries| => Quote(entries[i].0) + ":" + texts[i])
  }

  function Values(entries: seq<(string, Value)>): seq<Value> {
    seq(|entries|, i requires 0 <= i < |entries| => entries[i].1)
  }

  function Write(heap: Heap, v: Value, seen: set<nat>): Result<string, WriteError>
    requires WellFormed(heap) && InHeap(heap, v)
    decreases heap.Keys - seen, 0, 0
  {
    match v
    case Null | Undefined | Callable => Ok("null")
    case Str(s) => Ok(Quote(s))
    case Bool(b) => Ok(if b then "true" else "false")
    case Num(token) => Ok(token)
    case NonFinite => Err(NonFiniteNumber)
    case BigInt => Err(BigIntValue)
    case Obj(ref) =>
      if ref in seen then Err(Circular)
      else
        ChildrenInHeap(heap, ref);
        match heap[ref]
        case ArrayNode(items) =>
          var texts := WriteAll(heap, items, seen + {ref});
          if texts.Err? then Err(texts.error) else Ok("[" + Join(texts.value, ",") + "]")
        case ObjectNode(entries) =>
          var sorted := Sort(KeptEntries(entries));
          var texts := WriteAll(heap, Values(sorted), seen + {ref});
          if texts.Err? then Err(texts.error) else Ok("{" + Join(Pairs(sorted, texts.value), ",") + "}")
  }

  /** One text for each value, in order; the first error ends it. */
  function WriteAll(heap: Heap, vs: seq<Value>, seen: set<nat>): (r: Result<seq<string>, WriteError>)
    requires WellFormed(heap) && forall v | v in vs :: InHeap(heap, v)
    ensures r.Ok? ==> |r.value| == |vs|
    decreases heap.Keys - seen, 1, |vs|
  {
    if vs == [] then Ok([])
    else
      var first := Write(heap, vs[0], seen);
      if first.Err? then Err(first.error)
      else
        var rest := WriteAll(heap, vs[1..], seen);
        if rest.Err? then rest else Ok([first.value] + rest.value)
  }

  lemma {:induction false} ChildrenInHeap(heap: Heap, ref: nat)
    requires WellFormed(heap) && ref in heap
    ensures heap[ref].ArrayNode? ==> forall v | v in heap[ref].items :: InHeap(heap, v)
    ensures heap[ref].ObjectNode? ==> forall v | v in Values(Sort(KeptEntries(heap[ref].entries))) :: InHeap(heap, v)
  {
    if heap[ref].ObjectNode? {
      var entries := heap[ref].entries;
      SortKeepsEntries(entries);
      forall e | e in entries
        ensures InHeap(heap, e.1)
      {
        var i :| 0 <= i < |entries| && entries[i] == e;
        assert ChildrenOf(heap[ref])[i] == e.1;
      }
    }
  }

  lemma {:induction false} InsertKeepsEntries(e: (string, Value), sorted: seq<(string, Value)>)
    ensures forall x :: x in Insert(e, sorted) <==> x == e || x in sorted
  {
    if sorted != [] && Less(sorted[0].0, e.0) {
      InsertKeepsEntries(e, sorted[1..]);
    }
  }

  /** Sorting and filtering lose and invent nothing. */
  lemma {:induction false} SortKeepsEntries(entries: seq<(string, Value)>)
    ensures forall x :: x in Sort(KeptEntries(entries)) <==> x in entries && Kept(x.1)
  {
    KeptEntriesAre(entries);
    SortKeepsAll(KeptEntries(entries));
  }

  lemma {:induction false} KeptEntriesAre(entries: seq<(string, Value)>)
    ensures forall x :: x in KeptEntries(entries) <==> x in entries && Kept(x.1)
  {
    if entries != [] {
      KeptEntriesAre(entries[1..]);
    }
  }

  lemma {:induction false} SortKeepsAll(entries: seq<(string, Value)>)
    ensures forall x :: x in Sort(entries) <==> x in entries
  {
    if entries != [] {
      SortKeepsAll(entries[1..]);
      InsertKeepsEntries(entries[0], Sort(entries[1..]));
    }
  }

  // ---- the key order is total, and sorting by it has one outcome ----

  lemma {:induction false} LessIsTotal(a: string, b: string)
    ensures Less(a, b) || a == b || Less(b, a)
    ensures !(Less(a, b) && (a == b || Less(b, a)))
  {
    if a != "" && b != "" && a[0] == b[0] {
      LessIsTotal(a[1..], b[1..]);
      assert a == [a[0]] + a[1..] && b == [b[0]] + b[1..];
    }
  }

  lemma {:induction false} LessIsTransitive(a: string, b: string, c: string)
    requires Less(a, b) && Less(b, c)
    ensures Less(a, c)
  {
    if a != "" && a[0] == b[0] == c[0] {
      LessIsTransitive(a[1..], b[1..], c[1..]);
    }
  }

  predicate Ascending(keys: seq<string>) {
    forall i, j | 0 <= i < j < |keys| :: Less(keys[i], keys[j])
  }

  function Keys(entries: seq<(string, Value)>): seq<string> {
    seq(|entries|, i requires 0 <= i < |entries| => entries[i].0)
  }

  lemma {:induction false} InsertAscends(e: (string, Value), sorted: seq<(string, Value)>)
    requires Ascending(Keys(sorted)) && forall x | x in sorted :: x.0 != e.0
    ensures Ascending(Keys(Insert(e, sorted)))
  {
    if sorted != [] {
      LessIsTotal(sorted[0].0, e.0);
      assert sorted[0] in sorted;
      if Less(sorted[0].0, e.0) {
        assert Keys(sorted[1..]) == Keys(sorted)[1..];
        InsertAscends(e, sorted[1..]);
        InsertKeepsEntries(e, sorted[1..]);
        forall x | x in sorted[1..]
          ensures Less(sorted[0].0, x.0)
        {
          var i :| 0 <= i < |sorted[1..]| && sorted[1..][i] == x;
          assert Less(Keys(sorted)[0], Keys(sorted)[i + 1]);
        }
        AscendAfter(sorted[0], Insert(e, sorted[1..]));
      } else {
        forall x | x in sorted
          ensures Less(e.0, x.0)
        {
          var j :| 0 <= j < |sorted| && sorted[j] == x;
          if j > 0 {
            assert Less(Keys(sorted)[0], Keys(sorted)[j]);
            LessIsTransitive(e.0, sorted[0].0, sorted[j].0);
          }
        }
        AscendAfter(e, sorted);
      }
    }
  }

  lemma {:induction false} AscendAfter(e: (string, Value), rest: seq<(string, Value)>)
    requires Ascending(Keys(rest)) && forall x | x in rest :: Less(e.0, x.0)
    ensures Ascending(Keys([e] + rest))
  {
    var keys := Keys([e] + rest);
    forall i, j | 0 <= i < j < |keys|
      ensures Less(keys[i], keys[j])
    {
      assert keys[j] == rest[j - 1].0 && rest[j - 1] in rest;
      if i > 0 { assert Less(Keys(rest)[i - 1], Keys(rest)[j - 1]); }
    }
  }

  lemma {:induction false} SortAscends(entries: seq<(string, Value)>)
    requires DistinctKeys(entries)
    ensures Ascending(Keys(Sort(entries)))
  {
    if entries != [] {
      SortAscends(entries[1..]);
      SortKeepsAll(entries[1..]);
      InsertAscends(entries[0], Sort(entries[1..]));
    }
  }

  lemma {:induction false} KeptKeysDistinct(entries: seq<(string, Value)>)
    requires DistinctKeys(entries)
    ensures DistinctKeys(KeptEntries(entries))
  {
    if entries != [] {
      KeptKeysDistinct(entries[1..]);
      KeptEntriesAre(entries[1..]);
    }
  }

  ghost predicate IsLeast(k: string, s: set<string>) {
    k in s && forall j | j in s :: j == k || Less(k, j)
  }

  lemma {:induction false} LeastExists(s: set<string>)
    requires s != {}
    ensures exists k :: IsLeast(k, s)
  {
    var k :| k in s;
    if s == {k} {
      assert IsLeast(k, s);
    } else {
      LeastExists(s - {k});
      var l :| IsLeast(l, s - {k});
      LessIsTotal(k, l);
      if Less(l, k) {
        assert IsLeast(l, s);
      } else {
        forall j | j in s && j != k
          ensures Less(k, j)
        {
          if j != l { LessIsTransitive(k, l, j); }
        }
        assert IsLeast(k, s);
      }
    }
  }

  /** The keys of a set, in order. */
  ghost function SortedKeys(s: set<string>): (keys: seq<string>)
    ensures forall k :: k in keys <==> k in s
  {
    if s == {} then []
    else
      LeastExists(s);
      var k :| IsLeast(k, s);
      [k] + SortedKeys(s - {k})
  }

  lemma {:induction false} AscendingIsSortedKeys(keys: seq<string>, s: set<string>)
    requires Ascending(keys) && forall k :: k in keys <==> k in s
    ensures keys == SortedKeys(s)
    decreases |keys|
  {
    if keys == [] {
      assert s == {};
    } else {
      assert keys[0] in s;
      var rest := keys[1..];
      forall j | 0 <= j < |rest|
        ensures Less(keys[0], rest[j]) && rest[j] != keys[0]
      {
        LessIsTotal(keys[0], rest[j]);
      }
      AscendingIsSortedKeys(rest, s - {keys[0]});
      forall k | IsLeast(k, s)
        ensures k == keys[0]
      {
        LessIsTotal(k, keys[0]);
      }
    }
  }

  // ---- JSON trees: objects are finite maps, so key order is not part of a tree ----

  datatype Tree =
    | JNull | JBool(b: bool) | JNum(token: NumberToken) | JStr(s: string)
    | JArr(items: seq<Tree>) | JObj(members: map<string, Tree>)

  ghost function Print(t: Tree): string {
    match t
    case JNull => "null"
    case JBool(b) => if b then "true" else "false"
    case JNum(token) => token
    case JStr(s) => Quote(s)
    case JArr(items) => "[" + Join(seq(|items|, i requires 0 <= i < |items| => Print(items[i])), ",") + "]"
    case JObj(members) =>
      var keys := SortedKeys(members.Keys);
      "{" + Join(seq(|keys|, i requires 0 <= i < |keys| =>
                   assert keys[i] in keys; Pair(keys[i], Print(members[keys[i]]))), ",") + "}"
  }

  function Pair(key: string, text: string): string {
    Quote(key) + ":" + text
  }

  // ---- the text of a tree ends where it must: no other text can be read from the same place ----

  predicate Stops(rest: string) {
    rest != "" ==> rest[0] == ',' || rest[0] == ']' || rest[0] == '}'
  }

  predicate Solid(s: string) {
    s != "" && !Stops(s)
  }

  /** Two texts of elements, each followed by a stop, can only agree if they are the same. */
  ghost predicate Delimits(a: string, b: string) {
    forall x, y | Stops(x) && Stops(y) && a + x == b + y :: a == b
  }

  lemma {:induction false} EscapeShape(c: char)
    ensures var e := Escape(c); e != "" && e[0] != '"' && (e[0] == '\\' <==> e != [c])
  {
  }

  lemma {:induction false} EscapeDelimits(c: char, d: char, x: string, y: string)
    requires Escape(c) + x == Escape(d) + y
    ensures c == d && x == y
  {
    var e, f := Escape(c), Escape(d);
    EscapeShape(c);
    EscapeShape(d);
    assert (e + x)[0] == e[0] && (f + y)[0] == f[0];
    if e[0] == '\\' {
      assert (e + x)[1] == e[1] && (f + y)[1] == f[1];
      if e[1] == 'u' {
        assert (e + x)[4] == e[4] && (f + y)[4] == f[4] && (e + x)[5] == e[5] && (f + y)[5] == f[5];
      }
    }
    assert |e| == |f| && e == (e + x)[..|e|] == f;
    assert x == (e + x)[|e|..] == y;
  }

  function Closed(s: string, x: string): string {
    EscapeAll(s) + "\"" + x
  }

  lemma {:induction false} ClosedStep(s: string, x: string)
    ensures s == "" ==> Closed(s, x) == "\"" + x
    ensures s != "" ==> Closed(s, x) == Escape(s[0]) + Closed(s[1..], x)
    ensures Closed(s, x)[0] == '"' <==> s == ""
  {
    if s != "" {
      EscapeShape(s[0]);
      PrefixAssociates(Escape(s[0]), EscapeAll(s[1..]), x);
    }
  }

  lemma {:induction false} PrefixAssociates(e: string, m: string, x: string)
    requires e != ""
    ensures e + m + "\"" + x == e + (m + "\"" + x) && (e + m + "\"" + x)[0] == e[0]
  {
  }

  lemma {:induction false} ClosedDelimits(s: string, t: string, x: string, y: string)
    requires Closed(s, x) == Closed(t, y)
    ensures s == t && x == y
    decreases |s|
  {
    ClosedStep(s, x);
    ClosedStep(t, y);
    if s == "" {
      assert x == Closed(s, x)[1..] && y == Closed(t, y)[1..];
    } else {
      EscapeDelimits(s[0], t[0], Closed(s[1..], x), Closed(t[1..], y));
      ClosedDelimits(s[1..], t[1..], x, y);
      assert s == [s[0]] + s[1..] && t == [t[0]] + t[1..];
    }
  }

  lemma {:induction false} QuoteDelimits(s: string, t: string, x: string, y: string)
    requires Quote(s) + x == Quote(t) + y
    ensures s == t && x == y
  {
    assert (Quote(s) + x)[1..] == Closed(s, x);
    assert (Quote(t) + y)[1..] == Closed(t, y);
    ClosedDelimits(s, t, x, y);
  }

  lemma {:induction false} PairParts(k: string, l: string, a: string, b: string, x: string, y: string)
    requires Pair(k, a) + x == Pair(l, b) + y
    ensures k == l && a + x == b + y
  {
    assert Pair(k, a) + x == Quote(k) + (":" + (a + x)) && Pair(l, b) + y == Quote(l) + (":" + (b + y));
    QuoteDelimits(k, l, ":" + (a + x), ":" + (b + y));
    assert (":" + (a + x))[1..] == a + x && (":" + (b + y))[1..] == b + y;
  }

  lemma {:induction false} PairDelimits(k: string, l: string, a: string, b: string)
    requires Delimits(a, b)
    ensures Delimits(Pair(k, a), Pair(l, b))
    ensures Pair(k, a) == Pair(l, b) ==> k == l && a == b
  {
    forall x, y | Stops(x) && Stops(y) && Pair(k, a) + x == Pair(l, b) + y
      ensures k == l && a == b
    {
      PairParts(k, l, a, b, x, y);
    }
    if Pair(k, a) == Pair(l, b) {
      PairParts(k, l, a, b, "", "");
      assert a == a + "" && b == b + "";
    }
  }

  /** Elements joined by commas and closed by a bracket can be told apart again. */
  lemma {:induction false} JoinDelimits(a: seq<string>, b: seq<string>, close: char, x: string, y: string)
    requires close == ']' || close == '}'
    requires forall i | 0 <= i < |a| :: Solid(a[i])
    requires forall i | 0 <= i < |b| :: Solid(b[i])
    requires forall i | 0 <= i < |a| && i < |b| :: Delimits(a[i], b[i])
    requires Join(a, ",") + [close] + x == Join(b, ",") + [close] + y
    ensures a == b && x == y
    decreases |a|
  {
    var l, r := Join(a, ",") + [close] + x, Join(b, ",") + [close] + y;
    JoinStart(a, close, x);
    JoinStart(b, close, y);
    if a == [] || b == [] {
      assert l[1..] == x && r[1..] == y;
    } else {
      var restL := After(a, close, x);
      var restR := After(b, close, y);
      JoinAfter(a, close, x);
      JoinAfter(b, close, y);
      assert a[0] == b[0];
      assert restL == l[|a[0]|..] == r[|b[0]|..] == restR;
      if |a| == 1 || |b| == 1 {
        assert restL[0] == if |a| == 1 then close else ',';
        assert restR[0] == if |b| == 1 then close else ',';
        assert x == restL[1..] && y == restR[1..];
        assert a == [a[0]] && b == [b[0]];
      } else {
        assert restL[1..] == Join(a[1..], ",") + [close] + x && restR[1..] == Join(b[1..], ",") + [close] + y;
        JoinDelimits(a[1..], b[1..], close, x, y);
        assert a == [a[0]] + a[1..] && b == [b[0]] + b[1..];
      }
    }
  }

  lemma {:induction false} JoinStart(a: seq<string>, close: char, x: string)
    requires a != [] ==> Solid(a[0])
    ensures (Join(a, ",") + [close] + x)[0] == if a == [] then close else a[0][0]
  {
  }

  function After(a: seq<string>, close: char, x: string): (r: string)
    requires a != []
  {
    if |a| == 1 then [close] + x else "," + (Join(a[1..], ",") + [close] + x)
  }

  lemma {:induction false} JoinAfter(a: seq<string>, close: char, x: string)
    requires a != [] && (close == ']' || close == '}')
    ensures Join(a, ",") + [close] + x == a[0] + After(a, close, x) && Stops(After(a, close, x))
  {
  }

  // ---- printing trees is injective ----

  ghost function Texts(items: seq<Tree>): seq<string> {
    seq(|items|, i requires 0 <= i < |items| => Print(items[i]))
  }

  ghost function MemberTexts(members: map<string, Tree>, keys: seq<string>): seq<string>
    requires forall k | k in keys :: k in members
  {
    seq(|keys|, i requires 0 <= i < |keys| => assert keys[i] in keys; Pair(keys[i], Print(members[keys[i]])))
  }

  /** The first character tells the kinds of tree apart. */
  function Mark(t: Tree): char {
    match t
    case JNull => 'n'
    case JBool(b) => if b then 't' else 'f'
    case JNum(token) => token[0]
    case JStr(_) => '"'
    case JArr(_) => '['
    case JObj(_) => '{'
  }

  lemma {:induction false} PrintStarts(t: Tree)
    ensures Solid(Print(t)) && Print(t)[0] == Mark(t)
  {
  }

  lemma {:induction false} TokenDelimits(a: NumberToken, b: NumberToken, x: string, y: string)
    requires Stops(x) && Stops(y) && a + x == b + y
    ensures a == b && x == y
  {
    var l := a + x;
    assert forall i | 0 <= i < |a| :: l[i] == a[i];
    assert forall i | 0 <= i < |b| :: l[i] == b[i];
    assert (x != "" ==> l[|a|] == x[0]) && (y != "" ==> l[|b|] == y[0]);
    assert a == l[..|a|] && b == l[..|b|] && x == l[|a|..] && y == l[|b|..];
  }

  /** Equal output, followed by anything that can follow it, comes from equal trees. */
  lemma {:induction false} PrintDelimits(s: Tree, t: Tree, x: string, y: string)
    requires Stops(x) && Stops(y) && Print(s) + x == Print(t) + y
    ensures s == t && x == y
    decreases s
  {
    PrintStarts(s);
    PrintStarts(t);
    assert (Print(s) + x)[0] == Mark(s) && (Print(t) + y)[0] == Mark(t);
    match s
    case JNull =>
      assert x == (Print(s) + x)[4..] && y == (Print(t) + y)[4..];
    case JBool(b) =>
      assert x == (Print(s) + x)[|Print(s)|..] && y == (Print(t) + y)[|Print(t)|..];
    case JNum(token) =>
      TokenDelimits(token, t.token, x, y);
    case JStr(_) =>
      QuoteDelimits(s.s, t.s, x, y);
    case JArr(items) =>
      forall i | 0 <= i < |items| && i < |t.items|
        ensures Delimits(Texts(items)[i], Texts(t.items)[i])
        ensures Texts(items)[i] == Texts(t.items)[i] ==> items[i] == t.items[i]
      {
        ElementDelimits(s, items[i], t.items[i]);
      }
      ArrayDelimits(items, t.items, x, y);
    case JObj(members) =>
      var keys, others := SortedKeys(members.Keys), SortedKeys(t.members.Keys);
      forall i | 0 <= i < |keys| && i < |others|
        ensures keys[i] in members && others[i] in t.members
        ensures Delimits(Print(members[keys[i]]), Print(t.members[others[i]]))
        ensures Print(members[keys[i]]) == Print(t.members[others[i]]) ==> members[keys[i]] == t.members[others[i]]
      {
        assert keys[i] in keys && others[i] in others;
        ElementDelimits(s, members[keys[i]], t.members[others[i]]);
      }
      ObjectDelimits(members, t.members, keys, others, x, y);
  }

  lemma {:induction false} ElementDelimits(parent: Tree, a: Tree, b: Tree)
    requires a < parent
    ensures Delimits(Print(a), Print(b))
    ensures Print(a) == Print(b) ==> a == b
    decreases parent, 0
  {
    forall x, y | Stops(x) && Stops(y) && Print(a) + x == Print(b) + y
      ensures a == b
    {
      PrintDelimits(a, b, x, y);
    }
    if Print(a) == Print(b) {
      PrintDelimits(a, b, "", "");
    }
  }

  lemma {:induction false} DropFirst(open: char, j: string, close: char, x: string)
    ensures ([open] + j + [close] + x)[1..] == j + [close] + x
  {
  }

  lemma {:induction false} ArrayDelimits(a: seq<Tree>, b: seq<Tree>, x: string, y: string)
    requires "[" + Join(Texts(a), ",") + "]" + x == "[" + Join(Texts(b), ",") + "]" + y
    requires forall i | 0 <= i < |a| && i < |b| :: Delimits(Texts(a)[i], Texts(b)[i])
    requires forall i | 0 <= i < |a| && i < |b| && Texts(a)[i] == Texts(b)[i] :: a[i] == b[i]
    ensures a == b && x == y
  {
    DropFirst('[', Join(Texts(a), ","), ']', x);
    DropFirst('[', Join(Texts(b), ","), ']', y);
    forall t: Tree { PrintStarts(t); }
    JoinDelimits(Texts(a), Texts(b), ']', x, y);
    assert |Texts(a)| == |a| && |Texts(b)| == |b|;
  }

  lemma {:induction false} ObjectDelimits(a: map<string, Tree>, b: map<string, Tree>, ka: seq<string>, kb: seq<string>, x: string, y: string)
    requires ka == SortedKeys(a.Keys) && kb == SortedKeys(b.Keys)
    requires "{" + Join(MemberTexts(a, ka), ",") + "}" + x == "{" + Join(MemberTexts(b, kb), ",") + "}" + y
    requires forall i | 0 <= i < |ka| && i < |kb| :: ka[i] in a && kb[i] in b && Delimits(Print(a[ka[i]]), Print(b[kb[i]]))
    requires forall i | 0 <= i < |ka| && i < |kb| && Print(a[ka[i]]) == Print(b[kb[i]]) :: a[ka[i]] == b[kb[i]]
    ensures a == b && x == y
  {
    var ta, tb := MemberTexts(a, ka), MemberTexts(b, kb);
    DropFirst('{', Join(ta, ","), '}', x);
    DropFirst('{', Join(tb, ","), '}', y);
    MemberTextsDelimit(a, b, ka, kb, ta, tb);
    MembersDelimit(ta, tb, x, y);
    SameMembers(a, b, ka, kb);
  }

  lemma {:induction false} MemberTextsDelimit(a: map<string, Tree>, b: map<string, Tree>, ka: seq<string>, kb: seq<string>,
                           ta: seq<string>, tb: seq<string>)
    requires (forall k | k in ka :: k in a) && (forall k | k in kb :: k in b)
    requires ta == MemberTexts(a, ka) && tb == MemberTexts(b, kb)
    requires forall i | 0 <= i < |ka| && i < |kb| :: ka[i] in a && kb[i] in b && Delimits(Print(a[ka[i]]), Print(b[kb[i]]))
    requires forall i | 0 <= i < |ka| && i < |kb| && Print(a[ka[i]]) == Print(b[kb[i]]) :: a[ka[i]] == b[kb[i]]
    ensures |ta| == |ka| && |tb| == |kb|
    ensures forall i | 0 <= i < |ta| :: Solid(ta[i])
    ensures forall i | 0 <= i < |tb| :: Solid(tb[i])
    ensures forall i | 0 <= i < |ta| && i < |tb| :: Delimits(ta[i], tb[i])
    ensures forall i | 0 <= i < |ta| && i < |tb| && ta[i] == tb[i] :: ka[i] == kb[i] && a[ka[i]] == b[kb[i]]
  {
    forall i | 0 <= i < |ta|
      ensures Solid(ta[i])
    {
      assert ta[i] == Pair(ka[i], Print(a[ka[i]]));
    }
    forall i | 0 <= i < |tb|
      ensures Solid(tb[i])
    {
      assert tb[i] == Pair(kb[i], Print(b[kb[i]]));
    }
    forall i | 0 <= i < |ta| && i < |tb|
      ensures Delimits(ta[i], tb[i])
      ensures ta[i] == tb[i] ==> ka[i] == kb[i] && a[ka[i]] == b[kb[i]]
    {
      PairDelimits(ka[i], kb[i], Print(a[ka[i]]), Print(b[kb[i]]));
    }
  }

  lemma {:induction false} MembersDelimit(ta: seq<string>, tb: seq<string>, x: string, y: string)
    requires forall i | 0 <= i < |ta| :: Solid(ta[i])
    requires forall i | 0 <= i < |tb| :: Solid(tb[i])
    requires forall i | 0 <= i < |ta| && i < |tb| :: Delimits(ta[i], tb[i])
    requires Join(ta, ",") + ['}'] + x == Join(tb, ",") + ['}'] + y
    ensures ta == tb && |ta| == |tb| && x == y
  {
    JoinDelimits(ta, tb, '}', x, y);
  }

  lemma {:induction false} SameMembers(a: map<string, Tree>, b: map<string, Tree>, ka: seq<string>, kb: seq<string>)
    requires |ka| == |kb| && (forall k :: k in ka <==> k in a) && (forall k :: k in kb <==> k in b)
    requires forall i | 0 <= i < |ka| :: ka[i] == kb[i] && ka[i] in a && ka[i] in b && a[ka[i]] == b[ka[i]]
    ensures a == b
  {
    assert ka == kb;
    forall k | k in a
      ensures k in b && a[k] == b[k]
    {
      var i :| 0 <= i < |ka| && ka[i] == k;
    }
  }

  // ---- which tree a value stands for ----

  /** JSON has no such value: a member that holds it is left out. */
  ghost predicate Absent(v: Value) {
    v == Undefined || v == Callable
  }

  ghost predicate HasKept(entries: seq<(string, Value)>, k: string) {
    exists e | e in entries :: e.0 == k && !Absent(e.1)
  }

  /** Undefined members and functions are dropped, in an array they are null; key order is free. */
  ghost predicate Denotes(heap: Heap, v: Value, t: Tree)
    decreases t
  {
    match t
    case JNull => v == Value.Null || Absent(v)
    case JBool(b) => v == Value.Bool(b)
    case JNum(token) => v == Num(token)
    case JStr(s) => v == Str(s)
    case JArr(ts) =>
      && v.Obj? && v.ref in heap && heap[v.ref].ArrayNode?
      && |heap[v.ref].items| == |ts|
      && forall i | 0 <= i < |ts| :: Denotes(heap, heap[v.ref].items[i], ts[i])
    case JObj(members) =>
      && v.Obj? && v.ref in heap && heap[v.ref].ObjectNode?
      && (forall k | k in members :: HasKept(heap[v.ref].entries, k))
      && forall e | e in heap[v.ref].entries && !Absent(e.1) :: e.0 in members && Denotes(heap, e.1, members[e.0])
  }

  lemma {:induction false} DenotesOne(heap: Heap, v: Value, s: Tree, t: Tree)
    requires Denotes(heap, v, s) && Denotes(heap, v, t)
    ensures s == t
    decreases s
  {
    match s
    case JNull => case JBool(_) => case JNum(_) => case JStr(_) =>
    case JArr(items) =>
      forall i | 0 <= i < |items|
        ensures items[i] == t.items[i]
      {
        DenotesOne(heap, heap[v.ref].items[i], items[i], t.items[i]);
      }
    case JObj(members) =>
      var entries := heap[v.ref].entries;
      forall k | k in members
        ensures k in t.members && members[k] == t.members[k]
      {
        var e :| e in entries && e.0 == k && !Absent(e.1);
        DenotesOne(heap, e.1, members[k], t.members[k]);
      }
      assert forall k | k in t.members :: HasKept(entries, k);
      assert members == t.members;
  }

  // ---- a value that stands for a tree is printed as that tree ----

  /** Every object being printed stands for a tree that properly contains t. */
  ghost predicate Above(heap: Heap, open: map<nat, Tree>, t: Tree) {
    forall r | r in open :: Denotes(heap, Obj(r), open[r]) && t < open[r]
  }

  lemma {:induction false} WriteDenoted(heap: Heap, v: Value, t: Tree, open: map<nat, Tree>)
    requires WellFormed(heap) && InHeap(heap, v) && Denotes(heap, v, t) && Above(heap, open, t)
    ensures Write(heap, v, open.Keys) == Ok(Print(t))
    decreases t, 2
  {
    if t.JArr? {
      WriteArrayDenoted(heap, v, t, open);
    } else if t.JObj? {
      WriteObjectDenoted(heap, v, t, open);
    }
  }

  lemma {:induction false} WriteArrayDenoted(heap: Heap, v: Value, t: Tree, open: map<nat, Tree>)
    requires WellFormed(heap) && InHeap(heap, v) && Denotes(heap, v, t) && Above(heap, open, t) && t.JArr?
    ensures Write(heap, v, open.Keys) == Ok(Print(t))
    decreases t, 1
  {
    var inner := open[v.ref := t];
    NotOpen(heap, v.ref, t, open);
    assert inner.Keys == open.Keys + {v.ref};
    ChildrenInHeap(heap, v.ref);
    WriteAllDenoted(heap, heap[v.ref].items, t.items, inner, t);
  }

  lemma {:induction false} WriteObjectDenoted(heap: Heap, v: Value, t: Tree, open: map<nat, Tree>)
    requires WellFormed(heap) && InHeap(heap, v) && Denotes(heap, v, t) && Above(heap, open, t) && t.JObj?
    ensures Write(heap, v, open.Keys) == Ok(Print(t))
    decreases t, 1
  {
    var inner := open[v.ref := t];
    NotOpen(heap, v.ref, t, open);
    assert inner.Keys == open.Keys + {v.ref};
    ChildrenInHeap(heap, v.ref);
    var entries := heap[v.ref].entries;
    var sorted := Sort(KeptEntries(entries));
    SortKeepsEntries(entries);
    SortedMembers(entries, t.members, sorted);
    var ts := MemberTrees(sorted, t.members);
    MembersDenoted(heap, v, t, open, inner, sorted, ts);
    WriteAllDenoted(heap, Values(sorted), ts, inner, t);
    PairsAreMembers(sorted, t.members, ts);
    WriteObjectIs(heap, v, open.Keys, sorted, Texts(ts));
  }

  lemma {:induction false} MembersDenoted(heap: Heap, v: Value, t: Tree, open: map<nat, Tree>, inner: map<nat, Tree>,
                       sorted: seq<(string, Value)>, ts: seq<Tree>)
    requires v.Obj? && t.JObj? && Denotes(heap, v, t) && Above(heap, open, t) && inner == open[v.ref := t]
    requires forall e | e in sorted :: e in heap[v.ref].entries && Kept(e.1) && e.0 in t.members
    requires ts == MemberTrees(sorted, t.members)
    ensures forall i | 0 <= i < |ts| ::
      ts[i] < t && Denotes(heap, Values(sorted)[i], ts[i]) && Above(heap, inner, ts[i])
  {
    forall i | 0 <= i < |ts|
      ensures ts[i] < t && Denotes(heap, Values(sorted)[i], ts[i]) && Above(heap, inner, ts[i])
    {
      assert sorted[i] in sorted;
      assert ts[i] == t.members[sorted[i].0];
    }
  }

  lemma {:induction false} WriteObjectIs(heap: Heap, v: Value, seen: set<nat>, sorted: seq<(string, Value)>, texts: seq<string>)
    requires WellFormed(heap) && InHeap(heap, v) && v.Obj? && v.ref !in seen && heap[v.ref].ObjectNode?
    requires sorted == Sort(KeptEntries(heap[v.ref].entries))
    requires forall w | w in Values(sorted) :: InHeap(heap, w)
    requires WriteAll(heap, Values(sorted), seen + {v.ref}) == Ok(texts)
    ensures Write(heap, v, seen) == Ok("{" + Join(Pairs(sorted, texts), ",") + "}")
  {
  }

  lemma {:induction false} PairsAreMembers(sorted: seq<(string, Value)>, members: map<string, Tree>, ts: seq<Tree>)
    requires forall e | e in sorted :: e.0 in members
    requires Keys(sorted) == SortedKeys(members.Keys) && ts == MemberTrees(sorted, members)
    ensures Pairs(sorted, Texts(ts)) == MemberTexts(members, SortedKeys(members.Keys))
  {
    var keys := SortedKeys(members.Keys);
    forall i | 0 <= i < |sorted|
      ensures Pairs(sorted, Texts(ts))[i] == MemberTexts(members, keys)[i]
    {
      assert Keys(sorted)[i] == sorted[i].0;
    }
    assert |keys| == |Keys(sorted)| == |sorted|;
  }

  lemma {:induction false} NotOpen(heap: Heap, ref: nat, t: Tree, open: map<nat, Tree>)
    requires Denotes(heap, Obj(ref), t) && Above(heap, open, t)
    ensures ref !in open
  {
    if ref in open {
      DenotesOne(heap, Obj(ref), t, open[ref]);
    }
  }

  ghost function MemberTrees(sorted: seq<(string, Value)>, members: map<string, Tree>): (ts: seq<Tree>)
    requires forall e | e in sorted :: e.0 in members
    ensures |ts| == |sorted| && forall i | 0 <= i < |ts| :: sorted[i].0 in members && ts[i] == members[sorted[i].0]
  {
    seq(|sorted|, i requires 0 <= i < |sorted| => assert sorted[i] in sorted; members[sorted[i].0])
  }

  lemma {:induction false} SortedMembers(entries: seq<(string, Value)>, members: map<string, Tree>, sorted: seq<(string, Value)>)
    requires DistinctKeys(entries) && sorted == Sort(KeptEntries(entries))
    requires forall k | k in members :: HasKept(entries, k)
    requires forall e | e in entries && Kept(e.1) :: e.0 in members
    ensures Keys(sorted) == SortedKeys(members.Keys)
  {
    SortKeepsEntries(entries);
    KeptKeysDistinct(entries);
    SortAscends(KeptEntries(entries));
    forall k
      ensures k in Keys(sorted) <==> k in members.Keys
    {
      if k in Keys(sorted) {
        var i :| 0 <= i < |sorted| && Keys(sorted)[i] == k;
        assert sorted[i] in sorted;
      }
      if k in members.Keys {
        var e :| e in entries && e.0 == k && Kept(e.1);
        var i :| 0 <= i < |sorted| && sorted[i] == e;
        assert Keys(sorted)[i] == k;
      }
    }
    AscendingIsSortedKeys(Keys(sorted), members.Keys);
  }

  lemma {:induction false} WriteAllDenoted(heap: Heap, vs: seq<Value>, ts: seq<Tree>, open: map<nat, Tree>, parent: Tree)
    requires WellFormed(heap) && (forall v | v in vs :: InHeap(heap, v)) && |vs| == |ts|
    requires forall i | 0 <= i < |ts| :: ts[i] < parent && Denotes(heap, vs[i], ts[i]) && Above(heap, open, ts[i])
    ensures WriteAll(heap, vs, open.Keys) == Ok(Texts(ts))
    decreases parent, 0, |ts|
  {
    if vs != [] {
      WriteDenoted(heap, vs[0], ts[0], open);
      WriteAllDenoted(heap, vs[1..], ts[1..], open, parent);
      assert Texts(ts) == [Print(ts[0])] + Texts(ts[1..]);
    }
  }

  // ---- whatever is printed is the text of a tree the value stands for ----

  lemma {:induction false} WrittenIsTree(heap: Heap, v: Value, seen: set<nat>) returns (t: Tree)
    requires WellFormed(heap) && InHeap(heap, v) && Write(heap, v, seen).Ok?
    ensures Denotes(heap, v, t) && Write(heap, v, seen) == Ok(Print(t))
    decreases heap.Keys - seen, 0, 0
  {
    match v
    case Null => t := JNull;
    case Undefined => t := JNull;
    case Callable => t := JNull;
    case Bool(b) => t := JBool(b);
    case Num(token) => t := JNum(token);
    case Str(s) => t := JStr(s);
    case Obj(ref) =>
      ChildrenInHeap(heap, ref);
      match heap[ref] {
        case ArrayNode(items) =>
          var ts := WrittenAreTrees(heap, items, seen + {ref});
          t := JArr(ts);
        case ObjectNode(entries) =>
          var sorted := Sort(KeptEntries(entries));
          var ts := WrittenAreTrees(heap, Values(sorted), seen + {ref});
          t := WrittenObject(heap, v, seen, sorted, ts);
      }
  }

  lemma {:induction false} WrittenAreTrees(heap: Heap, vs: seq<Value>, seen: set<nat>) returns (ts: seq<Tree>)
    requires WellFormed(heap) && (forall v | v in vs :: InHeap(heap, v)) && WriteAll(heap, vs, seen).Ok?
    ensures |ts| == |vs| && forall i | 0 <= i < |ts| :: Denotes(heap, vs[i], ts[i])
    ensures WriteAll(heap, vs, seen) == Ok(Texts(ts))
    decreases heap.Keys - seen, 1, |vs|
  {
    if vs == [] {
      ts := [];
      assert Texts(ts) == [];
    } else {
      var first := WrittenIsTree(heap, vs[0], seen);
      var rest := WrittenAreTrees(heap, vs[1..], seen);
      ts := [first] + rest;
      assert Texts(ts) == [Print(first)] + Texts(rest);
    }
  }

  lemma {:induction false} WrittenObject(heap: Heap, v: Value, seen: set<nat>, sorted: seq<(string, Value)>, ts: seq<Tree>) returns (t: Tree)
    requires WellFormed(heap) && InHeap(heap, v) && v.Obj? && v.ref !in seen && heap[v.ref].ObjectNode?
    requires sorted == Sort(KeptEntries(heap[v.ref].entries))
    requires forall w | w in Values(sorted) :: InHeap(heap, w)
    requires |ts| == |sorted| && forall i | 0 <= i < |ts| :: Denotes(heap, sorted[i].1, ts[i])
    requires WriteAll(heap, Values(sorted), seen + {v.ref}) == Ok(Texts(ts))
    ensures Denotes(heap, v, t) && Write(heap, v, seen) == Ok(Print(t))
  {
    var entries := heap[v.ref].entries;
    SortKeepsEntries(entries);
    KeptKeysDistinct(entries);
    SortAscends(KeptEntries(entries));
    var members := Gather(sorted, ts);
    t := JObj(members);
    GatheredDenotes(heap, v, sorted, ts, members);
    SortedMembers(entries, members, sorted);
    PairsAreMembers(sorted, members, ts);
    WriteObjectIs(heap, v, seen, sorted, Texts(ts));
  }

  lemma {:induction false} GatheredDenotes(heap: Heap, v: Value, sorted: seq<(string, Value)>, ts: seq<Tree>, members: map<string, Tree>)
    requires v.Obj? && v.ref in heap && heap[v.ref].ObjectNode?
    requires forall e :: e in sorted <==> e in heap[v.ref].entries && Kept(e.1)
    requires |ts| == |sorted| && forall i | 0 <= i < |ts| :: Denotes(heap, sorted[i].1, ts[i])
    requires Ascending(Keys(sorted)) && members == Gather(sorted, ts)
    ensures Denotes(heap, v, JObj(members))
    ensures forall k | k in members :: HasKept(heap[v.ref].entries, k)
    ensures forall e | e in sorted :: e.0 in members
    ensures ts == MemberTrees(sorted, members)
  {
    var entries := heap[v.ref].entries;
    forall e | e in entries && Kept(e.1)
      ensures e.0 in members && Denotes(heap, e.1, members[e.0])
    {
      var i :| 0 <= i < |sorted| && sorted[i] == e;
    }
    forall k | k in members
      ensures HasKept(entries, k)
    {
      var i :| 0 <= i < |sorted| && sorted[i].0 == k;
      assert sorted[i] in sorted;
    }
    forall i | 0 <= i < |sorted|
      ensures sorted[i].0 in members && ts[i] == members[sorted[i].0]
    {
    }
  }

  /** The map from each key to its tree. */
  ghost function Gather(sorted: seq<(string, Value)>, ts: seq<Tree>): (m: map<string, Tree>)
    requires |ts| == |sorted| && Ascending(Keys(sorted))
    ensures forall k | k in m :: exists i | 0 <= i < |sorted| :: sorted[i].0 == k
    ensures forall i | 0 <= i < |sorted| :: sorted[i].0 in m && m[sorted[i].0] == ts[i]
  {
    if sorted == [] then map[]
    else
      var n := |sorted| - 1;
      LastKeyIsNew(sorted);
      var init := Gather(sorted[..n], ts[..n]);
      assert forall i | 0 <= i < n :: sorted[..n][i] == sorted[i] && ts[..n][i] == ts[i];
      init[sorted[n].0 := ts[n]]
  }

  lemma {:induction false} LastKeyIsNew(sorted: seq<(string, Value)>)
    requires sorted != [] && Ascending(Keys(sorted))
    ensures Ascending(Keys(sorted[..|sorted| - 1]))
    ensures forall i | 0 <= i < |sorted| - 1 :: sorted[i].0 != sorted[|sorted| - 1].0
  {
    var n := |sorted| - 1;
    assert Keys(sorted[..n]) == Keys(sorted)[..n];
    forall i | 0 <= i < n
      ensures sorted[i].0 != sorted[n].0
    {
      assert Less(Keys(sorted)[i], Keys(sorted)[n]);
      LessIsTotal(sorted[i].0, sorted[n].0);
    }
  }

  // ---- the promises ----

  function StableStringify(heap: Heap, v: Value): Result<string, WriteError>
    requires WellFormed(heap) && InHeap(heap, v)
  {
    Write(heap, v, {})
  }

  /** It succeeds exactly on the values that stand for a JSON tree: a shared object never raises,
      a circular one always does, and so do a bigint and a number that is not finite. */
  lemma {:induction false} SucceedsExactlyOnTrees(heap: Heap, v: Value)
    requires WellFormed(heap) && InHeap(heap, v)
    ensures StableStringify(heap, v).Ok? <==> exists t :: Denotes(heap, v, t)
  {
    if StableStringify(heap, v).Ok? {
      var t := WrittenIsTree(heap, v, {});
      assert Denotes(heap, v, t);
    }
    if exists t :: Denotes(heap, v, t) {
      var t :| Denotes(heap, v, t);
      var none: map<nat, Tree> := map[];
      assert none.Keys == {};
      WriteDenoted(heap, v, t, none);
      assert Write(heap, v, none.Keys) == Write(heap, v, {});
      assert StableStringify(heap, v).Ok?;
    }
  }

  /** Two values have the same text exactly when they stand for the same tree: equal up to the order
      of keys, and never equal otherwise. */
  lemma {:induction false} CanonicalAndInjective(heap: Heap, v: Value, other: Heap, w: Value)
    requires WellFormed(heap) && InHeap(heap, v) && WellFormed(other) && InHeap(other, w)
    requires StableStringify(heap, v).Ok? && StableStringify(other, w).Ok?
    ensures StableStringify(heap, v) == StableStringify(other, w)
      <==> exists t :: Denotes(heap, v, t) && Denotes(other, w, t)
  {
    var s := WrittenIsTree(heap, v, {});
    var t := WrittenIsTree(other, w, {});
    SharedDenotation(heap, v, other, w, s, t);
    PrintInjective(s, t);
  }

  lemma {:induction false} PrintInjective(s: Tree, t: Tree)
    ensures Print(s) == Print(t) <==> s == t
  {
    if Print(s) == Print(t) {
      PrintDelimits(s, t, "", "");
    }
  }

  lemma {:induction false} SharedDenotation(heap: Heap, v: Value, other: Heap, w: Value, s: Tree, t: Tree)
    requires Denotes(heap, v, s) && Denotes(other, w, t)
    ensures (exists u :: Denotes(heap, v, u) && Denotes(other, w, u)) <==> s == t
  {
    forall u | Denotes(heap, v, u) && Denotes(other, w, u)
      ensures s == t
    {
      DenotesOne(heap, v, s, u);
      DenotesOne(other, w, t, u);
    }
    if s == t {
      assert Denotes(heap, v, s) && Denotes(other, w, s);
    }
  }

  // ---- the printer as it runs, with one set of open objects that every call shares ----

  class OpenSet {
    var refs: set<nat>

    constructor ()
      ensures refs == {}
    {
      refs := {};
    }
  }

  /** The outcome of printing more values after some were printed. */
  function Prefixed(texts: seq<string>, r: Result<seq<string>, WriteError>): Result<seq<string>, WriteError> {
    if r.Err? then r else Ok(texts + r.value)
  }

  /** Prints a value and leaves the set of open objects as it found it, also when it fails. */
  method WriteValue(heap: Heap, v: Value, seen: OpenSet) returns (r: Result<string, WriteError>)
    requires WellFormed(heap) && InHeap(heap, v)
    modifies seen
    ensures r == Write(heap, v, old(seen.refs))
    ensures seen.refs == old(seen.refs)
    decreases heap.Keys - seen.refs, 0
  {
    match v
    case Null => r := Ok("null");
    case Undefined => r := Ok("null");
    case Callable => r := Ok("null");
    case Str(s) => r := Ok(Quote(s));
    case Bool(b) => r := Ok(if b then "true" else "false");
    case Num(token) => r := Ok(token);
    case NonFinite => r := Err(NonFiniteNumber);
    case BigInt => r := Err(BigIntValue);
    case Obj(ref) =>
      if ref in seen.refs { return Err(Circular); }
      ChildrenInHeap(heap, ref);
      ghost var before := seen.refs;
      seen.refs := seen.refs + {ref};
      var node := heap[ref];
      var sorted := if node.ArrayNode? then [] else Sort(KeptEntries(node.entries));
      var texts := WriteEach(heap, if node.ArrayNode? then node.items else Values(sorted), seen);
      seen.refs := seen.refs - {ref};
      assert seen.refs == before;
      if texts.Err? { return Err(texts.error); }
      r := if node.ArrayNode? then Ok("[" + Join(texts.value, ",") + "]")
           else Ok("{" + Join(Pairs(sorted, texts.value), ",") + "}");
  }

  method WriteEach(heap: Heap, vs: seq<Value>, seen: OpenSet) returns (r: Result<seq<string>, WriteError>)
    requires WellFormed(heap) && forall v | v in vs :: InHeap(heap, v)
    modifies seen
    ensures r == WriteAll(heap, vs, old(seen.refs))
    ensures seen.refs == old(seen.refs)
    decreases heap.Keys - seen.refs, 1
  {
    var texts := [];
    assert vs[0..] == vs;
    PrefixedEmpty(WriteAll(heap, vs, seen.refs));
    for i := 0 to |vs|
      invariant seen.refs == old(seen.refs)
      invariant WriteAll(heap, vs, seen.refs) == Prefixed(texts, WriteAll(heap, vs[i..], seen.refs))
    {
      assert vs[i..][0] == vs[i] && vs[i..][1..] == vs[i + 1..];
      var text := WriteValue(heap, vs[i], seen);
      if text.Err? { return Err(text.error); }
      PrefixedStep(texts, text.value, WriteAll(heap, vs[i + 1..], seen.refs));
      texts := texts + [text.value];
    }
    r := Ok(texts);
    assert vs[|vs|..] == [] && texts + [] == texts;
  }

  lemma {:induction false} PrefixedEmpty(r: Result<seq<string>, WriteError>)
    ensures Prefixed([], r) == r
  {
    if r.Ok? { assert [] + r.value == r.value; }
  }

  lemma {:induction false} PrefixedStep(texts: seq<string>, text: string, r: Result<seq<string>, WriteError>)
    ensures Prefixed(texts + [text], r) == if r.Err? then r else Prefixed(texts, Ok([text] + r.value))
  {
    if r.Ok? { assert texts + [text] + r.value == texts + ([text] + r.value); }
  }
}
