/** Reading JSON text back, by the grammar of RFC 8259 without white space between tokens. */
module JsonText {
  import opened Text
  import opened CanonicalJson

  // ---- key order ----

  /** The code-unit order: at the first difference a has the smaller character, or a is a proper prefix of b. */
  ghost predicate Before(a: string, b: string) {
    || (|a| < |b| && a == b[..|a|])
    || exists n: nat :: Differ(a, b, n) && a[n] < b[n]
  }

  /** n is the first index where both have a character and these differ. */
  ghost predicate Differ(a: string, b: string, n: nat) {
    n < |a| && n < |b| && a[..n] == b[..n] && a[n] != b[n]
  }

  lemma {:induction false} LessIsBefore(a: string, b: string)
    ensures Less(a, b) <==> Before(a, b)
  {
    if a != "" && b != "" {
      if a[0] == b[0] {
        LessIsBefore(a[1..], b[1..]);
        BeforeTail(a, b);
      } else {
        BeforeAtHead(a, b);
      }
    }
  }

  lemma {:induction false} BeforeAtHead(a: string, b: string)
    requires a != "" && b != "" && a[0] != b[0]
    ensures Before(a, b) <==> a[0] < b[0]
  {
    assert Differ(a, b, 0);
    forall n: nat | Differ(a, b, n)
      ensures n == 0
    {
      if n > 0 { SameHead(a, b, n); }
    }
    if |a| < |b| { PrefixHead(a, b); }
  }

  lemma {:induction false} SameHead(a: string, b: string, n: nat)
    requires 0 < n <= |a| && n <= |b| && a[..n] == b[..n]
    ensures a[0] == b[0]
  {
    assert a[..n][0] == a[0] && b[..n][0] == b[0];
  }

  lemma {:induction false} PrefixHead(a: string, b: string)
    requires 0 < |a| <= |b|
    ensures a == b[..|a|] ==> a[0] == b[0]
  {
    assert b[..|a|][0] == b[0];
  }

  lemma {:induction false} PrefixTail(a: string, b: string)
    requires a != "" && b != "" && a[0] == b[0] && |a| <= |b|
    ensures a == b[..|a|] <==> a[1..] == b[1..][..|a| - 1]
  {
    assert a == [a[0]] + a[1..];
    assert b[..|a|] == [b[0]] + b[1..][..|a| - 1];
  }

  lemma {:induction false} DifferTail(a: string, b: string, n: nat)
    requires a != "" && b != "" && a[0] == b[0]
    ensures Differ(a, b, n + 1) <==> Differ(a[1..], b[1..], n)
  {
    if n + 1 < |a| && n + 1 < |b| {
      assert a[..n + 1] == [a[0]] + a[1..][..n];
      assert b[..n + 1] == [b[0]] + b[1..][..n];
    }
  }

  lemma {:induction false} BeforeTail(a: string, b: string)
    requires a != "" && b != "" && a[0] == b[0]
    ensures Before(a, b) <==> Before(a[1..], b[1..])
  {
    var a', b' := a[1..], b[1..];
    if |a| <= |b| { PrefixTail(a, b); }
    assert !Differ(a, b, 0);
    if n: nat :| Differ(a, b, n) && a[n] < b[n] {
      DifferTail(a, b, n - 1);
      assert Differ(a', b', n - 1) && a'[n - 1] < b'[n - 1];
    }
    if n: nat :| Differ(a', b', n) && a'[n] < b'[n] {
      DifferTail(a, b, n);
      assert Differ(a, b, n + 1) && a[n + 1] < b[n + 1];
    }
  }

  // ---- string tokens ----

  function HexValue(c: char): Option<nat> {
    if '0' <= c <= '9' then Some((c - '0') as nat)
    else if 'a' <= c <= 'f' then Some((c - 'a') as nat + 10)
    else if 'A' <= c <= 'F' then Some((c - 'A') as nat + 10)
    else None
  }

  /** The character of a four-digit escape; no character where a digit is not one, or the code is a surrogate. */
  function ReadHex(s: string): Option<char>
    requires |s| >= 4
  {
    var a, b, c, d := HexValue(s[0]), HexValue(s[1]), HexValue(s[2]), HexValue(s[3]);
    if a.None? || b.None? || c.None? || d.None? then None
    else
      var code := 4096 * a.value + 256 * b.value + 16 * c.value + d.value;
      if code < 0xD800 || 0xE000 <= code < 0x10000 then Some(code as char) else None
  }

  /** One character of a string token and what follows it: RFC 8259, section 7. */
  function ReadChar(s: string): (r: Option<(char, string)>)
    ensures r.Some? ==> |r.value.1| < |s|
  {
    if s == "" || s[0] == '"' || s[0] as int < 0x20 then None
    else if s[0] != '\\' then Some((s[0], s[1..]))
    else if |s| < 2 then None
    else
      match s[1]
      case '"' => Some(('"', s[2..]))
      case '\\' => Some(('\\', s[2..]))
      case '/' => Some(('/', s[2..]))
      case 'b' => Some((8 as char, s[2..]))
      case 'f' => Some((12 as char, s[2..]))
      case 'n' => Some((10 as char, s[2..]))
      case 'r' => Some((13 as char, s[2..]))
      case 't' => Some((9 as char, s[2..]))
      case 'u' =>
        if |s| < 6 then None
        else
          var c := ReadHex(s[2..]);
          if c.None? then None else Some((c.value, s[6..]))
      case _ => None
  }

  /** The characters up to the closing quote, and what follows it. */
  function ReadChars(s: string): (r: Option<(string, string)>)
    ensures r.Some? ==> |r.value.1| < |s|
    decreases |s|
  {
    if s != "" && s[0] == '"' then Some(("", s[1..]))
    else
      var c := ReadChar(s);
      if c.None? then None
      else
        var rest := ReadChars(c.value.1);
        if rest.None? then None else Some(([c.value.0] + rest.value.0, rest.value.1))
  }

  lemma {:induction false} EscapeReads(c: char, x: string)
    ensures ReadChar(Escape(c) + x) == Some((c, x))
  {
    var s := Escape(c) + x;
    assert s[|Escape(c)|..] == x;
    if c < ' ' && |Escape(c)| == 6 {
      assert s[2..][0] == '0' && s[2..][1] == '0' && s[2..][2] == Escape(c)[4] && s[2..][3] == Escape(c)[5];
    }
  }

  /** Nothing is escaped that need not be, the short escapes are used, and hexadecimal is in lower case. */
  lemma {:induction false} EscapeIsShortest(c: char)
    ensures |Escape(c)| ==
      if c in {'"', '\\'} || c as int in {8, 9, 10, 12, 13} then 2 else if c as int < 0x20 then 6 else 1
    ensures forall i | 0 <= i < |Escape(c)| && |Escape(c)| == 6 :: !('A' <= Escape(c)[i] <= 'F')
  {
  }

  lemma {:induction false} CharsRead(s: string, x: string)
    ensures ReadChars(EscapeAll(s) + "\"" + x) == Some((s, x))
  {
    var text := EscapeAll(s) + "\"" + x;
    if s == "" {
      assert text == "\"" + x;
    } else {
      var rest := EscapeAll(s[1..]) + "\"" + x;
      assert text == Escape(s[0]) + rest;
      EscapeReads(s[0], rest);
      EscapeShape(s[0]);
      CharsRead(s[1..], x);
      assert [s[0]] + s[1..] == s;
    }
  }

  /** A printed string is a string token of RFC 8259 that reads back as the string. */
  lemma {:induction false} QuoteReads(s: string, x: string)
    ensures Quote(s) + x != "" && (Quote(s) + x)[0] == '"'
    ensures ReadChars((Quote(s) + x)[1..]) == Some((s, x))
  {
    CharsRead(s, x);
    assert Quote(s) + x == "\"" + (EscapeAll(s) + "\"" + x);
    assert (Quote(s) + x)[1..] == EscapeAll(s) + "\"" + x;
  }

  // ---- values ----

  /** What a JSON text holds: the members of an object in the order in which they stand. */
  datatype Read =
    | RNull | RBool(b: bool) | RNum(token: string) | RStr(s: string)
    | RArr(items: seq<Read>) | RObj(members: seq<(string, Read)>)

  /** What a number is written with. */
  predicate NumberPart(c: char) {
    c in "0123456789-+.eE"
  }

  /** The longest stretch of number characters. */
  function NumberEnd(s: string): (n: nat)
    ensures n <= |s|
  {
    if s != "" && NumberPart(s[0]) then 1 + NumberEnd(s[1..]) else 0
  }

  /** One value and what follows it. */
  function ReadValue(s: string): (r: Option<(Read, string)>)
    ensures r.Some? ==> |r.value.1| < |s|
    decreases |s|, 0
  {
    if s == "" then None
    else if s[0] == 'n' then if |s| >= 4 && s[..4] == "null" then Some((RNull, s[4..])) else None
    else if s[0] == 't' then if |s| >= 4 && s[..4] == "true" then Some((RBool(true), s[4..])) else None
    else if s[0] == 'f' then if |s| >= 5 && s[..5] == "false" then Some((RBool(false), s[5..])) else None
    else if s[0] == '"' then
      var r := ReadChars(s[1..]);
      if r.None? then None else Some((RStr(r.value.0), r.value.1))
    else if s[0] == '[' then
      if |s| >= 2 && s[1] == ']' then Some((RArr([]), s[2..]))
      else
        var r := ReadItems(s[1..]);
        if r.None? then None else Some((RArr(r.value.0), r.value.1))
    else if s[0] == '{' then
      if |s| >= 2 && s[1] == '}' then Some((RObj([]), s[2..]))
      else
        var r := ReadMembers(s[1..]);
        if r.None? then None else Some((RObj(r.value.0), r.value.1))
    else if s[0] in "-0123456789" then Some((RNum(s[..NumberEnd(s)]), s[NumberEnd(s)..]))
    else None
  }

  /** Values separated by commas up to the closing bracket. */
  function ReadItems(s: string): (r: Option<(seq<Read>, string)>)
    ensures r.Some? ==> |r.value.1| < |s|
    decreases |s|, 1
  {
    var first := ReadValue(s);
    if first.None? || first.value.1 == "" then None
    else if first.value.1[0] == ']' then Some(([first.value.0], first.value.1[1..]))
    else if first.value.1[0] != ',' then None
    else
      var rest := ReadItems(first.value.1[1..]);
      if rest.None? then None else Some(([first.value.0] + rest.value.0, rest.value.1))
  }

  /** A name, a colon and a value. */
  function ReadMember(s: string): (r: Option<((string, Read), string)>)
    ensures r.Some? ==> |r.value.1| < |s|
    decreases |s|, 1
  {
    if s == "" || s[0] != '"' then None
    else
      var name := ReadChars(s[1..]);
      if name.None? || name.value.1 == "" || name.value.1[0] != ':' then None
      else
        var r := ReadValue(name.value.1[1..]);
        if r.None? then None else Some(((name.value.0, r.value.0), r.value.1))
  }

  function ReadMembers(s: string): (r: Option<(seq<(string, Read)>, string)>)
    ensures r.Some? ==> |r.value.1| < |s|
    decreases |s|, 2
  {
    var first := ReadMember(s);
    if first.None? || first.value.1 == "" then None
    else if first.value.1[0] == '}' then Some(([first.value.0], first.value.1[1..]))
    else if first.value.1[0] != ',' then None
    else
      var rest := ReadMembers(first.value.1[1..]);
      if rest.None? then None else Some(([first.value.0] + rest.value.0, rest.value.1))
  }

  /** The text was read as this tree: the members of every object stand in ascending key order. */
  ghost predicate StandsFor(r: Read, t: Tree)
    decreases t
  {
    match t
    case JNull => r == RNull
    case JBool(b) => r == RBool(b)
    case JNum(token) => r == RNum(token)
    case JStr(s) => r == RStr(s)
    case JArr(items) =>
      r.RArr? && |r.items| == |items| && forall i | 0 <= i < |items| :: StandsFor(r.items[i], items[i])
    case JObj(members) =>
      && r.RObj?
      && (forall i, j | 0 <= i < j < |r.members| :: Before(r.members[i].0, r.members[j].0))
      && (forall i | 0 <= i < |r.members| :: r.members[i].0 in members && StandsFor(r.members[i].1, members[r.members[i].0]))
      && forall k | k in members :: exists i | 0 <= i < |r.members| :: r.members[i].0 == k
  }

  ghost predicate ReadsAs(text: string, r: Read) {
    forall x | Stops(x) :: ReadValue(text + x) == Some((r, x))
  }

  lemma {:induction false} NumberReads(token: NumberToken)
    ensures ReadsAs(token, RNum(token))
  {
    forall x | Stops(x)
      ensures ReadValue(token + x) == Some((RNum(token), x))
    {
      NumberEnds(token, x);
      NumberOf(token + x, token, x);
    }
  }

  lemma {:induction false} NumberOf(s: string, token: NumberToken, x: string)
    requires s == token + x && NumberEnd(s) == |token|
    ensures ReadValue(s) == Some((RNum(token), x))
  {
    assert s[0] == token[0] && s[..|token|] == token && s[|token|..] == x;
  }

  lemma {:induction false} NumberEnds(token: string, x: string)
    requires Stops(x) && forall i | 0 <= i < |token| :: NumberChar(token[i])
    ensures NumberEnd(token + x) == |token|
  {
    if token == "" {
      assert token + x == x;
    } else {
      NumberEnds(token[1..], x);
      assert (token + x)[1..] == token[1..] + x;
    }
  }

  lemma {:induction false} StringReads(s: string)
    ensures ReadsAs(Quote(s), RStr(s))
  {
    forall x | Stops(x)
      ensures ReadValue(Quote(s) + x) == Some((RStr(s), x))
    {
      QuoteReads(s, x);
    }
  }

  lemma {:induction false} ItemsRead(texts: seq<string>, rs: seq<Read>, x: string)
    requires |texts| == |rs| > 0 && forall i | 0 <= i < |texts| :: ReadsAs(texts[i], rs[i])
    ensures ReadItems(Join(texts, ",") + "]" + x) == Some((rs, x))
  {
    var after := After(texts, ']', x);
    JoinAfter(texts, ']', x);
    ReadsHere(texts[0], rs[0], after);
    if |texts| == 1 {
      LastItem(texts[0] + after, rs[0], x);
      assert rs == [rs[0]];
    } else {
      var rest := Join(texts[1..], ",") + "]" + x;
      ItemsRead(texts[1..], rs[1..], x);
      NextItem(texts[0] + after, rs[0], rest, rs[1..], x);
      assert rs == [rs[0]] + rs[1..];
    }
  }

  lemma {:induction false} ReadsHere(text: string, r: Read, x: string)
    requires ReadsAs(text, r) && Stops(x)
    ensures ReadValue(text + x) == Some((r, x))
  {
  }

  lemma {:induction false} LastItem(s: string, r: Read, x: string)
    requires ReadValue(s) == Some((r, "]" + x))
    ensures ReadItems(s) == Some(([r], x))
  {
    assert ("]" + x)[1..] == x;
  }

  lemma {:induction false} NextItem(s: string, r: Read, rest: string, rs: seq<Read>, x: string)
    requires ReadValue(s) == Some((r, "," + rest)) && ReadItems(rest) == Some((rs, x))
    ensures ReadItems(s) == Some(([r] + rs, x))
  {
    assert ("," + rest)[1..] == rest;
  }

  lemma {:induction false} LastMember(s: string, r: (string, Read), x: string)
    requires ReadMember(s) == Some((r, "}" + x))
    ensures ReadMembers(s) == Some(([r], x))
  {
    assert ("}" + x)[1..] == x;
  }

  lemma {:induction false} NextMember(s: string, r: (string, Read), rest: string, rs: seq<(string, Read)>, x: string)
    requires ReadMember(s) == Some((r, "," + rest)) && ReadMembers(rest) == Some((rs, x))
    ensures ReadMembers(s) == Some(([r] + rs, x))
  {
    assert ("," + rest)[1..] == rest;
  }

  lemma {:induction false} MemberReads(key: string, text: string, r: Read, x: string)
    requires Stops(x) && ReadsAs(text, r)
    ensures ReadMember(Pair(key, text) + x) == Some(((key, r), x))
  {
    var rest := ":" + (text + x);
    assert Pair(key, text) + x == Quote(key) + rest && rest[1..] == text + x;
    QuoteReads(key, rest);
  }

  ghost predicate MemberFits(key: string, text: string, pair: string, r: (string, Read)) {
    pair == Pair(key, text) && r.0 == key && ReadsAs(text, r.1)
  }

  lemma {:induction false} MembersRead(keys: seq<string>, texts: seq<string>, pairs: seq<string>, rs: seq<(string, Read)>, x: string)
    requires |keys| == |texts| == |pairs| == |rs| > 0
    requires forall i | 0 <= i < |keys| :: MemberFits(keys[i], texts[i], pairs[i], rs[i])
    ensures ReadMembers(Join(pairs, ",") + "}" + x) == Some((rs, x))
  {
    assert Join(pairs, ",") + "}" + x == Join(pairs, ",") + ("}" + x);
    MembersReadFrom(keys, texts, pairs, rs, x, Join(pairs, ",") + ("}" + x));
  }

  lemma {:induction false} MembersReadFrom(keys: seq<string>, texts: seq<string>, pairs: seq<string>, rs: seq<(string, Read)>,
                                           x: string, s: string)
    requires |keys| == |texts| == |pairs| == |rs| > 0 && s == Join(pairs, ",") + ("}" + x)
    requires forall i | 0 <= i < |keys| :: MemberFits(keys[i], texts[i], pairs[i], rs[i])
    ensures ReadMembers(s) == Some((rs, x))
    decreases |keys|
  {
    JoinedFrom(pairs, "}" + x, s);
    if |keys| == 1 {
      OneMember(keys[0], texts[0], pairs[0], rs[0], x);
      assert rs == [rs[0]];
    } else {
      var rest := Join(pairs[1..], ",") + ("}" + x);
      RestFits(keys, texts, pairs, rs);
      MembersReadFrom(keys[1..], texts[1..], pairs[1..], rs[1..], x, rest);
      MoreMembers(keys[0], texts[0], pairs[0], rs[0], rest, rs[1..], x);
      assert rs == [rs[0]] + rs[1..];
    }
  }

  lemma {:induction false} RestFits(keys: seq<string>, texts: seq<string>, pairs: seq<string>, rs: seq<(string, Read)>)
    requires |keys| == |texts| == |pairs| == |rs| > 0
    requires forall i | 0 <= i < |keys| :: MemberFits(keys[i], texts[i], pairs[i], rs[i])
    ensures forall i | 0 <= i < |keys| - 1 :: MemberFits(keys[1..][i], texts[1..][i], pairs[1..][i], rs[1..][i])
  {
  }

  lemma {:induction false} JoinedFrom(parts: seq<string>, end: string, s: string)
    requires parts != [] && s == Join(parts, ",") + end
    ensures |parts| == 1 ==> s == parts[0] + end
    ensures |parts| > 1 ==> s == parts[0] + ("," + (Join(parts[1..], ",") + end))
  {
  }

  lemma {:induction false} OneMember(key: string, text: string, pair: string, r: (string, Read), x: string)
    requires MemberFits(key, text, pair, r)
    ensures ReadMembers(pair + ("}" + x)) == Some(([r], x))
  {
    MemberReads(key, text, r.1, "}" + x);
    LastMember(pair + ("}" + x), r, x);
  }

  lemma {:induction false} MoreMembers(key: string, text: string, pair: string, r: (string, Read), rest: string,
                                       rs: seq<(string, Read)>, x: string)
    requires MemberFits(key, text, pair, r) && ReadMembers(rest) == Some((rs, x))
    ensures ReadMembers(pair + ("," + rest)) == Some(([r] + rs, x))
  {
    MemberReads(key, text, r.1, "," + rest);
    NextMember(pair + ("," + rest), r, rest, rs, x);
  }

  lemma {:induction false} ArrayReads(texts: seq<string>, rs: seq<Read>)
    requires |texts| == |rs| && forall i | 0 <= i < |texts| :: Solid(texts[i]) && ReadsAs(texts[i], rs[i])
    ensures ReadsAs("[" + Join(texts, ",") + "]", RArr(rs))
  {
    forall x | Stops(x)
      ensures ReadValue("[" + Join(texts, ",") + "]" + x) == Some((RArr(rs), x))
    {
      var inner := Join(texts, ",") + "]" + x;
      assert "[" + Join(texts, ",") + "]" + x == "[" + inner && ("[" + inner)[1..] == inner;
      JoinStart(texts, ']', x);
      if texts != [] {
        ItemsRead(texts, rs, x);
        ArrayOf(inner, rs, x);
      } else {
        assert ("[" + inner)[2..] == x;
      }
    }
  }

  lemma {:induction false} ObjectReads(keys: seq<string>, texts: seq<string>, pairs: seq<string>, rs: seq<(string, Read)>)
    requires |keys| == |texts| == |pairs| == |rs|
    requires forall i | 0 <= i < |keys| :: MemberFits(keys[i], texts[i], pairs[i], rs[i])
    ensures ReadsAs("{" + Join(pairs, ",") + "}", RObj(rs))
  {
    forall x | Stops(x)
      ensures ReadValue("{" + Join(pairs, ",") + "}" + x) == Some((RObj(rs), x))
    {
      var inner := Join(pairs, ",") + "}" + x;
      assert "{" + Join(pairs, ",") + "}" + x == "{" + inner;
      JoinStart(pairs, '}', x);
      if keys != [] {
        MembersRead(keys, texts, pairs, rs, x);
        assert inner[0] == '"';
        ObjectOf(inner, rs, x);
      } else {
        NoMembers(inner, x);
      }
    }
  }

  lemma {:induction false} NoMembers(inner: string, x: string)
    requires inner == "}" + x
    ensures ReadValue("{" + inner) == Some((RObj([]), x))
  {
    assert ("{" + inner)[1..] == inner && ("{" + inner)[2..] == x;
  }

  lemma {:induction false} ObjectOf(inner: string, rs: seq<(string, Read)>, x: string)
    requires inner != "" && inner[0] != '}' && ReadMembers(inner) == Some((rs, x))
    ensures ReadValue("{" + inner) == Some((RObj(rs), x))
  {
    assert ("{" + inner)[1..] == inner;
  }

  lemma {:induction false} ArrayOf(inner: string, rs: seq<Read>, x: string)
    requires inner != "" && inner[0] != ']' && ReadItems(inner) == Some((rs, x))
    ensures ReadValue("[" + inner) == Some((RArr(rs), x))
  {
    assert ("[" + inner)[1..] == inner;
  }

  lemma {:induction false} LiteralsRead(x: string)
    ensures ReadValue("null" + x) == Some((RNull, x))
    ensures ReadValue("true" + x) == Some((RBool(true), x))
    ensures ReadValue("false" + x) == Some((RBool(false), x))
  {
    assert ("null" + x)[..4] == "null" && ("null" + x)[4..] == x;
    assert ("true" + x)[..4] == "true" && ("true" + x)[4..] == x;
    assert ("false" + x)[..5] == "false" && ("false" + x)[5..] == x;
  }

  lemma {:induction false} SortedKeysAscend(keys: set<string>)
    ensures forall i, j | 0 <= i < j < |SortedKeys(keys)| :: Before(SortedKeys(keys)[i], SortedKeys(keys)[j])
  {
    if keys != {} {
      LeastExists(keys);
      var sorted := SortedKeys(keys);
      assert IsLeast(sorted[0], keys) && sorted[1..] == SortedKeys(keys - {sorted[0]});
      SortedKeysAscend(keys - {sorted[0]});
      forall i, j | 0 <= i < j < |sorted|
        ensures Before(sorted[i], sorted[j])
      {
        assert sorted[j] == sorted[1..][j - 1] && sorted[j] in SortedKeys(keys - {sorted[0]});
        if i == 0 {
          LessIsBefore(sorted[0], sorted[j]);
        } else {
          assert sorted[i] == sorted[1..][i - 1];
        }
      }
    }
  }

  /** The printed text of a tree, followed by whatever may follow a value, reads back as that tree. */
  lemma {:induction false} PrintReads(t: Tree) returns (r: Read)
    ensures ReadsAs(Print(t), r) && StandsFor(r, t)
    decreases t, 2
  {
    forall x { LiteralsRead(x); }
    match t
    case JNull => r := RNull;
    case JBool(b) => r := RBool(b);
    case JNum(token) =>
      NumberReads(token);
      r := RNum(token);
    case JStr(s) =>
      StringReads(s);
      r := RStr(s);
    case JArr(items) =>
      var rs := TreesRead(items, t);
      forall i | 0 <= i < |items| { PrintStarts(items[i]); }
      ArrayReads(Texts(items), rs);
      r := RArr(rs);
    case JObj(members) =>
      r := MembersReadBack(members, t);
  }

  lemma {:induction false} TreesRead(items: seq<Tree>, parent: Tree) returns (rs: seq<Read>)
    requires forall i | 0 <= i < |items| :: items[i] < parent
    ensures |rs| == |items| && forall i | 0 <= i < |items| :: ReadsAs(Print(items[i]), rs[i]) && StandsFor(rs[i], items[i])
    decreases parent, 0
  {
    rs := [];
    for i := 0 to |items|
      invariant |rs| == i && forall k | 0 <= k < i :: ReadsAs(Print(items[k]), rs[k]) && StandsFor(rs[k], items[k])
    {
      var r := PrintReads(items[i]);
      rs := rs + [r];
    }
  }

  lemma {:induction false} MembersReadBack(members: map<string, Tree>, parent: Tree) returns (r: Read)
    requires parent == JObj(members)
    ensures ReadsAs(Print(parent), r) && StandsFor(r, parent)
    decreases parent, 1
  {
    var keys := SortedKeys(members.Keys);
    var trees := seq(|keys|, i requires 0 <= i < |keys| => assert keys[i] in keys; members[keys[i]]);
    var rs := TreesRead(trees, parent);
    var ms := seq(|keys|, i requires 0 <= i < |keys| => (keys[i], rs[i]));
    r := RObj(ms);
    ObjectReads(keys, Texts(trees), MemberTexts(members, keys), ms);
    SortedKeysAscend(members.Keys);
    MembersStand(members, keys, trees, rs, ms);
  }

  lemma {:induction false} MembersStand(members: map<string, Tree>, keys: seq<string>, trees: seq<Tree>, rs: seq<Read>,
                                        ms: seq<(string, Read)>)
    requires |keys| == |trees| == |rs| == |ms| && forall k :: k in keys <==> k in members
    requires forall i, j | 0 <= i < j < |keys| :: Before(keys[i], keys[j])
    requires forall i | 0 <= i < |keys| ::
      keys[i] in members && trees[i] == members[keys[i]] && ms[i] == (keys[i], rs[i]) && StandsFor(rs[i], trees[i])
    ensures StandsFor(RObj(ms), JObj(members))
  {
    forall k | k in members
      ensures exists i | 0 <= i < |ms| :: ms[i].0 == k
    {
      var i :| 0 <= i < |keys| && keys[i] == k;
      assert ms[i].0 == k;
    }
  }

  /** What StableStringify prints is JSON: it reads back, to its end, as the tree the value stands for, with the
      members of every object in code-unit order. */
  lemma {:induction false} StringifiedReads(heap: Heap, v: Value)
    requires WellFormed(heap) && InHeap(heap, v) && StableStringify(heap, v).Ok?
    ensures exists t, r :: Denotes(heap, v, t) && StandsFor(r, t)
                           && ReadValue(StableStringify(heap, v).value) == Some((r, ""))
  {
    var t := WrittenIsTree(heap, v, {});
    var r := PrintReads(t);
    assert Print(t) + "" == Print(t);
  }
}
