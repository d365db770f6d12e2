/** The string operations of the host language that the modelled code calls.
    A string is a sequence of characters; indices and lengths count characters. */
module Text {

  datatype Option<+T> = None | Some(value: T)

  datatype Result<+T, +E> = Ok(value: T) | Err(error: E)

  /** p stands in s at index i. */
  predicate MatchAt(s: string, p: string, i: int) {
    0 <= i <= |s| - |p| && s[i..i + |p|] == p
  }

  ghost predicate Occurs(s: string, p: string) {
    exists i :: MatchAt(s, p, i)
  }

  /** The first index at or after `from` where p stands, or -1. */
  function IndexFrom(s: string, p: string, from: nat): (r: int)
    ensures r == -1 || from <= r <= |s| - |p|
    decreases |s| - from
  {
    if from > |s| - |p| then -1
    else if MatchAt(s, p, from) then from
    else IndexFrom(s, p, from + 1)
  }

  function IndexOf(s: string, p: string): (r: int)
    ensures r == -1 || 0 <= r <= |s| - |p|
  {
    IndexFrom(s, p, 0)
  }

  lemma {:induction false} IndexFromIsFirst(s: string, p: string, from: nat)
    ensures var r := IndexFrom(s, p, from);
      && (r != -1 ==> MatchAt(s, p, r))
      && forall i | from <= i && (r == -1 || i < r) :: !MatchAt(s, p, i)
    decreases |s| - from
  {
    if from <= |s| - |p| && !MatchAt(s, p, from) {
      IndexFromIsFirst(s, p, from + 1);
    }
  }

  lemma {:induction false} IndexOfIsFirst(s: string, p: string)
    ensures IndexOf(s, p) == -1 <==> !Occurs(s, p)
    ensures IndexOf(s, p) != -1 ==> MatchAt(s, p, IndexOf(s, p))
    ensures forall i | MatchAt(s, p, i) :: 0 <= IndexOf(s, p) <= i
  {
    IndexFromIsFirst(s, p, 0);
  }

  lemma {:induction false} FoundOnlyAt(s: string, p: string, at: nat)
    requires forall i :: MatchAt(s, p, i) <==> i == at
    ensures IndexOf(s, p) == at && IndexFrom(s, p, at + 1) == -1
  {
    assert MatchAt(s, p, at);
    IndexOfIsFirst(s, p);
    IndexFromIsFirst(s, p, at + 1);
  }

  /** The last index where character c stands, or -1. */
  function LastIndexOfChar(s: string, c: char): (r: int)
    ensures -1 <= r < |s|
    ensures r >= 0 ==> s[r] == c
    ensures forall i | r < i < |s| :: s[i] != c
  {
    if s == "" then -1
    else if s[|s| - 1] == c then |s| - 1
    else LastIndexOfChar(s[..|s| - 1], c)
  }

  function Split(s: string, sep: string): (parts: seq<string>)
    requires sep != ""
    ensures parts != []
    decreases |s|
  {
    var i := IndexOf(s, sep);
    if i == -1 then [s] else [s[..i]] + Split(s[i + |sep|..], sep)
  }

  function Join(parts: seq<string>, sep: string): string {
    if parts == [] then ""
    else if |parts| == 1 then parts[0]
    else parts[0] + sep + Join(parts[1..], sep)
  }

  /** s.split(p).join(r) */
  function ReplaceAll(s: string, p: string, r: string): string
    requires p != ""
  {
    Join(Split(s, p), r)
  }

  /** White space and line terminators, as trim() and \s see them. */
  predicate IsSpace(c: char) {
    || '\U{9}' <= c <= '\U{D}'
    || c == ' '
    || c == '\U{A0}' || c == '\U{1680}' || '\U{2000}' <= c <= '\U{200A}'
    || c == '\U{2028}' || c == '\U{2029}' || c == '\U{202F}' || c == '\U{205F}'
    || c == '\U{3000}' || c == '\U{FEFF}'
  }

  function TrimStart(s: string): string {
    if s != "" && IsSpace(s[0]) then TrimStart(s[1..]) else s
  }

  function TrimEnd(s: string): string {
    if s != "" && IsSpace(s[|s| - 1]) then TrimEnd(s[..|s| - 1]) else s
  }

  function Trim(s: string): string {
    TrimEnd(TrimStart(s))
  }

  /** The code points ECMA-262 counts as white space or line terminators. */
  ghost predicate Blank(c: char) {
    c as int in {0x9, 0xA, 0xB, 0xC, 0xD, 0x20, 0xA0, 0x1680, 0x2000, 0x2001, 0x2002, 0x2003, 0x2004, 0x2005, 0x2006,
                 0x2007, 0x2008, 0x2009, 0x200A, 0x2028, 0x2029, 0x202F, 0x205F, 0x3000, 0xFEFF}
  }

  ghost predicate AllMarked(mark: char -> bool, s: string) {
    forall k | 0 <= k < |s| :: mark(s[k])
  }

  /** core is s without the marked characters around it. */
  ghost predicate StripsTo(mark: char -> bool, s: string, core: string) {
    && (core != "" ==> !mark(core[0]) && !mark(core[|core| - 1]))
    && exists before, after | AllMarked(mark, before) && AllMarked(mark, after) :: s == before + core + after
  }

  /** Something in s is not white space. */
  ghost predicate Visible(s: string) {
    exists k | 0 <= k < |s| :: !Blank(s[k])
  }

  /** core is s without the white space around it. */
  ghost predicate IsCore(s: string, core: string) {
    StripsTo(Blank, s, core)
  }

  lemma {:induction false} TrimStartSplits(s: string) returns (before: string)
    ensures AllMarked(Blank, before) && s == before + TrimStart(s)
    ensures TrimStart(s) != "" ==> !Blank(TrimStart(s)[0])
  {
    if s != "" && IsSpace(s[0]) {
      var rest := TrimStartSplits(s[1..]);
      before := [s[0]] + rest;
    } else {
      before := "";
    }
  }

  lemma {:induction false} TrimEndSplits(s: string) returns (after: string)
    ensures AllMarked(Blank, after) && s == TrimEnd(s) + after
    ensures TrimEnd(s) != "" ==> !Blank(TrimEnd(s)[|TrimEnd(s)| - 1]) && TrimEnd(s)[0] == s[0]
  {
    if s != "" && IsSpace(s[|s| - 1]) {
      var rest := TrimEndSplits(s[..|s| - 1]);
      after := rest + [s[|s| - 1]];
      assert s == s[..|s| - 1] + [s[|s| - 1]];
    } else {
      after := "";
    }
  }

  /** Trimming takes away the white space around a text, all of it and nothing else. */
  lemma {:induction false} TrimIsCore(s: string, core: string)
    ensures IsCore(s, core) <==> core == Trim(s)
  {
    var before := TrimStartSplits(s);
    var after := TrimEndSplits(TrimStart(s));
    assert s == before + Trim(s) + after;
    assert IsCore(s, Trim(s));
    if IsCore(s, core) {
      StrippedIsUnique(Blank, s, core, Trim(s));
    }
  }

  lemma {:induction false} StrippedIsUnique(mark: char -> bool, s: string, a: string, b: string)
    requires StripsTo(mark, s, a) && StripsTo(mark, s, b)
    ensures a == b
  {
    var x, y :| AllMarked(mark, x) && AllMarked(mark, y) && s == x + a + y;
    var x', y' :| AllMarked(mark, x') && AllMarked(mark, y') && s == x' + b + y';
    if a == "" {
      NothingLeft(mark, s, x, y, x', b, y');
    } else if b == "" {
      NothingLeft(mark, s, x', y', x, a, y);
    } else {
      StartsAt(s, x, a + y, x', b + y');
      StartsAt(s, x', b + y', x, a + y);
      EndsAt(s, x + a, y, x' + b, y');
      EndsAt(s, x' + b, y', x + a, y);
      var n, n' := |x + a|, |x' + b|;
      assert a == s[|x|..n] && b == s[|x'|..n'];
    }
  }

  lemma {:induction false} NothingLeft(mark: char -> bool, s: string, x: string, y: string, x': string, core: string, y': string)
    requires AllMarked(mark, x) && AllMarked(mark, y) && s == x + y && s == x' + core + y'
    requires core != "" ==> !mark(core[0])
    ensures core == ""
  {
    if core != "" { MarkedAt(mark, s, |x'|, core[0]); }
  }

  lemma {:induction false} MarkedAt(mark: char -> bool, s: string, i: nat, c: char)
    requires AllMarked(mark, s) && i < |s| && s[i] == c
    ensures mark(c)
  {
  }

  lemma {:induction false} StartsAt(s: string, x: string, u: string, x': string, u': string)
    requires s == x + u && s == x' + u' && u != ""
    ensures |x| < |x'| ==> x'[|x|] == u[0]
  {
    assert s[|x|] == u[0];
  }

  lemma {:induction false} EndsAt(s: string, u: string, y: string, u': string, y': string)
    requires s == u + y && s == u' + y' && u' != ""
    ensures |u| < |u'| ==> y[|u'| - 1 - |u|] == u'[|u'| - 1]
  {
    assert s[|u'| - 1] == u'[|u'| - 1];
  }

  /** A text is visible exactly when trimming leaves something. */
  lemma {:induction false} VisibleIsTrimmed(s: string)
    ensures Visible(s) <==> Trim(s) != ""
  {
    TrimIsCore(s, Trim(s));
    var x, y :| AllMarked(Blank, x) && AllMarked(Blank, y) && s == x + Trim(s) + y;
    if Trim(s) != "" {
      assert s[|x|] == Trim(s)[0];
    }
  }

  lemma {:induction false} TrimSolid(s: string)
    requires s != "" && !IsSpace(s[0]) && !IsSpace(s[|s| - 1])
    ensures Trim(s) == s
  {
  }

  // ---- occurrences ----

  lemma {:induction false} MatchInside(a: string, b: string, c: string, p: string, i: int)
    requires MatchAt(b, p, i)
    ensures MatchAt(a + b + c, p, |a| + i)
  {
    assert (a + b + c)[|a| + i..|a| + i + |p|] == b[i..i + |p|];
  }

  /** A part of a string free of p is free of p. */
  lemma {:induction false} FreePart(a: string, b: string, c: string, p: string)
    requires !Occurs(a + b + c, p)
    ensures !Occurs(b, p)
  {
    if i :| MatchAt(b, p, i) {
      MatchInside(a, b, c, p, i);
    }
  }

  /** An occurrence in a + b lies in a, in b, or straddles the seam. */
  lemma {:induction false} MatchChars(s: string, p: string, i: int)
    requires MatchAt(s, p, i)
    ensures forall k | i <= k < i + |p| :: s[k] == p[k - i]
  {
    forall k | i <= k < i + |p|
      ensures s[k] == p[k - i]
    {
      assert s[i..i + |p|][k - i] == s[k];
    }
  }

  /** Without one of the characters of p there is no p. */
  lemma {:induction false} FreeOf(s: string, p: string, k: int)
    requires 0 <= k < |p| && p[k] !in s
    ensures !Occurs(s, p)
  {
    forall i
      ensures MatchAt(s, p, i) ==> p[k] in s
    {
      if MatchAt(s, p, i) { MatchBrings(s, p, i, k); }
    }
  }

  lemma {:induction false} MatchBrings(s: string, p: string, i: int, k: int)
    requires MatchAt(s, p, i) && 0 <= k < |p|
    ensures p[k] in s
  {
    MatchChars(s, p, i);
    assert s[i + k] == p[k];
  }

  /** Around a character that p lacks, the occurrences of p are those of the two sides. */
  lemma {:induction false} MatchAround(a: string, c: char, b: string, p: string, i: int)
    requires c !in p && p != ""
    ensures MatchAt(a + [c] + b, p, i) <==> MatchAt(a, p, i) || MatchAt(b, p, i - |a| - 1)
  {
    var s := a + [c] + b;
    if MatchAt(s, p, i) {
      MatchChars(s, p, i);
      assert s[|a|] == c;
      assert i + |p| <= |a| || |a| < i;
      assert i + |p| <= |a| ==> a[i..i + |p|] == s[i..i + |p|];
      assert |a| < i ==> b[i - |a| - 1..i - |a| - 1 + |p|] == s[i..i + |p|];
    }
    if MatchAt(a, p, i) {
      MatchInside("", a, [c] + b, p, i);
      assert "" + a + ([c] + b) == s;
    }
    if MatchAt(b, p, i - |a| - 1) {
      MatchInside(a + [c], b, "", p, i - |a| - 1);
      assert a + [c] + b + "" == s;
    }
  }

  /** Putting r between two texts never makes an occurrence of p: the only ones are theirs. */
  ghost predicate Inert(r: string, p: string) {
    forall x, y, i :: MatchAt(x + r + y, p, i) ==> MatchAt(x, p, i) || MatchAt(y, p, i - |x| - |r|)
  }

  lemma {:induction false} MatchBeforeGuard(x: string, u: string, p: string, i: int)
    requires p != "" && p[|p| - 1] !in u && MatchAt(x + u, p, i)
    ensures MatchAt(x, p, i)
  {
    assert forall e | 0 <= e < |u| :: (x + u)[|x| + e] == u[e] && u[e] in u;
    MatchChars(x + u, p, i);
    assert (x + u)[i + |p| - 1] == p[|p| - 1];
    assert x[i..i + |p|] == (x + u)[i..i + |p|];
  }

  lemma {:induction false} MatchAfterGuard(v: string, y: string, p: string, i: int)
    requires p != "" && p[0] !in v && MatchAt(v + y, p, i)
    ensures MatchAt(y, p, i - |v|)
  {
    assert forall e | 0 <= e < |v| :: (v + y)[e] == v[e] && v[e] in v;
    MatchChars(v + y, p, i);
    assert y[i - |v|..i - |v| + |p|] == (v + y)[i..i + |p|];
  }

  /** r = u c v with c foreign to p: p can neither end in u nor start in v. */
  lemma {:induction false} InertByGuard(u: string, c: char, v: string, p: string)
    requires p != "" && c !in p && p[|p| - 1] !in u && p[0] !in v
    ensures Inert(u + [c] + v, p)
  {
    forall x, y, i | MatchAt(x + (u + [c] + v) + y, p, i)
      ensures MatchAt(x, p, i) || MatchAt(y, p, i - |x| - |u + [c] + v|)
    {
      assert x + (u + [c] + v) + y == (x + u) + [c] + (v + y);
      MatchAround(x + u, c, v + y, p, i);
      if MatchAt(x + u, p, i) {
        MatchBeforeGuard(x, u, p, i);
      } else {
        MatchAfterGuard(v, y, p, i - |x + u| - 1);
      }
    }
  }

  /** r = u c m d v, where the middle stretch m holds no p of its own. */
  lemma {:induction false} InertByGuards(u: string, c: char, m: string, d: char, v: string, p: string)
    requires p != "" && c !in p && d !in p
    requires p[|p| - 1] !in u && p[0] !in v && !Occurs(m, p)
    ensures Inert(u + [c] + m + [d] + v, p)
  {
    forall x, y, i | MatchAt(x + (u + [c] + m + [d] + v) + y, p, i)
      ensures MatchAt(x, p, i) || MatchAt(y, p, i - |x| - |u + [c] + m + [d] + v|)
    {
      var j := i - |x + u| - 1;
      assert x + (u + [c] + m + [d] + v) + y == (x + u) + [c] + (m + [d] + (v + y));
      MatchAround(x + u, c, m + [d] + (v + y), p, i);
      if MatchAt(x + u, p, i) {
        MatchBeforeGuard(x, u, p, i);
      } else {
        MatchAround(m, d, v + y, p, j);
        MatchAfterGuard(v, y, p, j - |m| - 1);
      }
    }
  }

  /** How many times p stands in s, overlaps included. */
  function Count(s: string, p: string): nat
    requires p != ""
  {
    if |s| < |p| then 0 else (if MatchAt(s, p, 0) then 1 else 0) + Count(s[1..], p)
  }

  lemma {:induction false} MatchTail(s: string, p: string, i: nat)
    requires s != ""
    ensures MatchAt(s[1..], p, i) <==> MatchAt(s, p, i + 1)
  {
    if i + |p| <= |s| - 1 {
      assert s[1..][i..i + |p|] == s[i + 1..i + 1 + |p|];
    }
  }

  lemma {:induction false} CountFree(s: string, p: string)
    requires p != "" && !Occurs(s, p)
    ensures Count(s, p) == 0
  {
    if |s| >= |p| {
      assert s == [s[0]] + s[1..] + "";
      FreePart([s[0]], s[1..], "", p);
      CountFree(s[1..], p);
    }
  }

  lemma {:induction false} CountOnce(s: string, p: string, at: nat)
    requires p != "" && forall i :: MatchAt(s, p, i) <==> i == at
    ensures Count(s, p) == 1
  {
    assert MatchAt(s, p, at);
    forall i: nat {
      MatchTail(s, p, i);
    }
    if at == 0 {
      CountFree(s[1..], p);
    } else {
      CountOnce(s[1..], p, at - 1);
    }
  }

  lemma {:induction false} CountAround(a: string, c: char, b: string, p: string)
    requires p != "" && c !in p
    ensures Count(a + [c] + b, p) == Count(a, p) + Count(b, p)
  {
    var s := a + [c] + b;
    MatchAround(a, c, b, p, 0);
    if a == "" {
      assert s[1..] == b;
    } else {
      CountAround(a[1..], c, b, p);
      assert s[1..] == a[1..] + [c] + b;
    }
  }

  // ---- split and join ----

  lemma {:induction false} JoinSplit(s: string, sep: string)
    requires sep != ""
    ensures Join(Split(s, sep), sep) == s
    decreases |s|
  {
    var i := IndexOf(s, sep);
    IndexOfIsFirst(s, sep);
    if i != -1 {
      JoinSplit(s[i + |sep|..], sep);
      assert s == s[..i] + sep + s[i + |sep|..];
    }
  }

  lemma {:induction false} SplitFound(s: string, sep: string, i: nat)
    requires sep != "" && IndexOf(s, sep) == i
    ensures Split(s, sep) == [s[..i]] + Split(s[i + |sep|..], sep)
  {
  }

  lemma {:induction false} ReplaceAllNone(s: string, p: string, r: string)
    requires p != "" && !Occurs(s, p)
    ensures ReplaceAll(s, p, r) == s
  {
    IndexOfIsFirst(s, p);
    assert Split(s, p) == [s];
  }

  /** A text free of q splits into pieces free of q, and every piece is free of the separator. */
  lemma {:induction false} SplitFree(s: string, sep: string, q: string)
    requires sep != ""
    requires q == sep || !Occurs(s, q)
    ensures forall part | part in Split(s, sep) :: !Occurs(part, q)
    decreases |s|
  {
    var i := IndexOf(s, sep);
    IndexOfIsFirst(s, sep);
    if i != -1 {
      FirstPieceFree(s, sep, q);
      var rest := s[i + |sep|..];
      if q != sep {
        assert s == s[..i + |sep|] + rest + "";
        FreePart(s[..i + |sep|], rest, "", q);
      }
      SplitFree(rest, sep, q);
      assert Split(s, sep) == [s[..i]] + Split(rest, sep);
    }
  }

  lemma {:induction false} FirstPieceFree(s: string, sep: string, q: string)
    requires sep != "" && IndexOf(s, sep) != -1
    requires q == sep || !Occurs(s, q)
    ensures !Occurs(s[..IndexOf(s, sep)], q)
  {
    var i := IndexOf(s, sep);
    IndexOfIsFirst(s, sep);
    forall j
      ensures MatchAt(s[..i], q, j) ==> MatchAt(s, q, j) && j + |q| <= i
    {
      MatchInFront(s, i, q, j);
    }
  }

  lemma {:induction false} MatchInFront(s: string, i: nat, q: string, j: int)
    requires i <= |s|
    ensures MatchAt(s[..i], q, j) ==> MatchAt(s, q, j)
  {
    if MatchAt(s[..i], q, j) {
      MatchInside("", s[..i], s[i..], q, j);
      assert "" + s[..i] + s[i..] == s;
    }
  }

  lemma {:induction false} JoinFree(parts: seq<string>, r: string, p: string)
    requires p != "" && Inert(r, p)
    requires forall part | part in parts :: !Occurs(part, p)
    ensures !Occurs(Join(parts, r), p)
  {
    if |parts| > 1 {
      JoinFree(parts[1..], r, p);
      assert parts[0] in parts;
    } else if |parts| == 1 {
      assert parts[0] in parts;
    }
  }

  /** Replacing every p by a text inert for q leaves no q, if there was none or q is p itself. */
  lemma {:induction false} ReplaceAllFree(s: string, p: string, r: string, q: string)
    requires p != "" && q != "" && Inert(r, q)
    requires q == p || !Occurs(s, q)
    ensures !Occurs(ReplaceAll(s, p, r), q)
  {
    SplitFree(s, p, q);
    JoinFree(Split(s, p), r, q);
  }

  lemma {:induction false} SplitStep(head: string, c: char, rest: string)
    requires c !in head
    ensures Split(head, [c]) == [head]
    ensures Split(head + [c] + rest, [c]) == [head] + Split(rest, [c])
  {
    var s := head + [c] + rest;
    var n := |head|;
    IndexOfIsFirst(head, [c]);
    IndexOfIsFirst(s, [c]);
    assert s[n..n + 1] == [c] && MatchAt(s, [c], n);
    forall i
      ensures MatchAt(s, [c], i) ==> s[i] == c
    {
      if MatchAt(s, [c], i) { MatchChars(s, [c], i); }
    }
    FreeOf(head, [c], 0);
    assert forall i | 0 <= i < n :: s[i] == head[i] && head[i] in head;
    assert s[..n] == head && s[n + 1..] == rest;
  }

  /** Splitting what was joined returns the pieces, when no piece holds the separator character. */
  lemma {:induction false} SplitJoin(parts: seq<string>, c: char)
    requires parts != []
    requires forall k | 0 <= k < |parts| :: c !in parts[k]
    ensures Split(Join(parts, [c]), [c]) == parts
  {
    if |parts| == 1 {
      SplitStep(parts[0], c, "");
      assert parts == [parts[0]];
    } else {
      SplitJoin(parts[1..], c);
      SplitStep(parts[0], c, Join(parts[1..], [c]));
      assert parts == [parts[0]] + parts[1..];
    }
  }

  // ---- numbers ----

  const MAX_SAFE_INTEGER := 0x1F_FFFF_FFFF_FFFF

  /** Number.isSafeInteger, on whole numbers. */
  predicate IsSafe(n: int) {
    -MAX_SAFE_INTEGER <= n <= MAX_SAFE_INTEGER
  }

  function Power10(n: nat): nat {
    if n == 0 then 1 else 10 * Power10(n - 1)
  }

  predicate IsDigit(c: char) {
    '0' <= c <= '9'
  }

  predicate AllDigits(s: string) {
    forall i | 0 <= i < |s| :: IsDigit(s[i])
  }

  function DigitChar(d: nat): (c: char)
    requires d < 10
    ensures IsDigit(c) && DigitValue(c) == d
  {
    '0' + d as char
  }

  function DigitValue(c: char): (v: nat)
    requires IsDigit(c)
    ensures v < 10
  {
    (c - '0') as nat
  }

  /** String(n) */
  function Decimal(n: nat): (s: string)
    ensures s != "" && AllDigits(s)
  {
    if n < 10 then [DigitChar(n)] else Decimal(n / 10) + [DigitChar(n % 10)]
  }

  /** Number(s) for a string of digits. */
  function DecimalValue(s: string): nat
    requires AllDigits(s)
  {
    if s == "" then 0 else 10 * DecimalValue(s[..|s| - 1]) + DigitValue(s[|s| - 1])
  }

  lemma {:induction false} DecimalRoundTrip(n: nat)
    ensures DecimalValue(Decimal(n)) == n
    decreases n
  {
    if n >= 10 {
      DecimalRoundTrip(n / 10);
      var s := Decimal(n);
      assert s[..|s| - 1] == Decimal(n / 10);
    }
  }

  /** s writes n in decimal digits, the last one for the units. */
  ghost predicate Numeral(s: string, n: nat)
    decreases |s|
  {
    if s == "" then n == 0
    else
      var last := s[|s| - 1] as int - 48;
      0 <= last <= 9 && n % 10 == last && Numeral(s[..|s| - 1], n / 10)
  }

  /** Digits are read as the number they write, and nothing else is a number. */
  lemma {:induction false} DigitsWriteTheirValue(s: string, n: nat)
    ensures Numeral(s, n) <==> AllDigits(s) && DecimalValue(s) == n
    decreases |s|
  {
    if s != "" {
      var init, last := s[..|s| - 1], s[|s| - 1];
      DigitsWriteTheirValue(init, n / 10);
      assert s == init + [last];
    }
  }

  /** A printed number writes itself, without a zero in front. */
  lemma {:induction false} DecimalIsNumeral(n: nat)
    ensures Numeral(Decimal(n), n)
    ensures Decimal(n)[0] == '0' <==> n == 0
    ensures n == 0 ==> Decimal(n) == "0"
    decreases n
  {
    DecimalRoundTrip(n);
    DigitsWriteTheirValue(Decimal(n), n);
    if n >= 10 {
      DecimalIsNumeral(n / 10);
    }
  }

  lemma {:induction false} DecimalLength(n: nat, k: nat)
    requires k > 0
    ensures |Decimal(n)| <= k <==> n < Power10(k)
    decreases n
  {
    if n >= 10 {
      if k == 1 {
        assert |Decimal(n / 10)| >= 1;
      } else {
        DecimalLength(n / 10, k - 1);
      }
    } else {
      PowerGrows(k);
    }
  }

  lemma {:induction false} PowerGrows(k: nat)
    requires k > 0
    ensures Power10(k) >= 10
  {
    if k > 1 {
      PowerGrows(k - 1);
    }
  }
}
