/** Why replacing a text by a bracketed marker, again and again, comes to an end: for every text that is not part of the
    marker there is a number that each replacement lowers, although the whole text may grow. */
module Replacement {
  import opened Text

  /** The marker around a word. */
  function Marked(word: string): string {
    ['['] + word + [']']
  }

  predicate BracketFree(s: string) {
    '[' !in s && ']' !in s
  }

  /** How often c stands in s. */
  function Uses(s: string, c: char): nat {
    if s == "" then 0 else Uses(s[..|s| - 1], c) + if s[|s| - 1] == c then 1 else 0
  }

  /** At how many places from lo up to hi p stands in s. */
  function Places(s: string, p: string, lo: int, hi: int): nat
    decreases hi - lo
  {
    if lo >= hi then 0 else Places(s, p, lo, hi - 1) + if MatchAt(s, p, hi - 1) then 1 else 0
  }

  /** What shrinks: the uses of a character, the places of a piece, or a weighted count read from left to right. */
  datatype Reason = Spends(c: char) | Loses(piece: string) | Climbs | Falls | Crosses

  /** One character of the weighted counts: what it adds, and the weight after it.
      Climbs counts the characters before each '[' since the last ']'; Falls counts the characters after each ']' up to
      the next '['; Crosses counts the pairs of a ']' before a '['. */
  function Weigh(reason: Reason, c: char, n: nat): (nat, nat) {
    match reason
    case Climbs => if c == '[' then (n, n) else if c == ']' then (0, 0) else (0, n + 1)
    case Falls => if c == '[' then (0, 0) else if c == ']' then (0, n + 1) else (n, n)
    case Crosses => if c == '[' then (n, n) else if c == ']' then (0, n + 1) else (0, n)
    case _ => (0, 0)
  }

  function Scan(reason: Reason, t: string, n: nat): nat {
    if t == "" then 0
    else
      var (adds, next) := Weigh(reason, t[0], n);
      adds + Scan(reason, t[1..], next)
  }

  function Measure(reason: Reason, t: string): nat {
    match reason
    case Spends(c) => Uses(t, c)
    case Loses(piece) => Places(t, piece, 0, |t|)
    case _ => Scan(reason, t, 0)
  }

  ghost predicate Works(secret: string, word: string, reason: Reason) {
    match reason
    case Spends(c) => Uses(secret, c) > Uses(Marked(word), c)
    case Loses(piece) => piece != "" && Occurs(secret, piece) && Inert(Marked(word), piece)
    case Climbs => ']' !in secret && '[' in secret && secret[0] != '['
    case Falls => '[' !in secret && ']' in secret && secret[|secret| - 1] != ']'
    case Crosses => exists a, b, c | BracketFree(a) && BracketFree(b) && BracketFree(c) :: secret == a + "]" + b + "[" + c
  }

  /** Replacing an occurrence, in any surroundings, lowers the measure. */
  lemma {:induction false} ReplacingShrinks(x: string, secret: string, y: string, word: string, reason: Reason)
    requires BracketFree(word) && secret != "" && Works(secret, word, reason)
    ensures Measure(reason, x + Marked(word) + y) < Measure(reason, x + secret + y)
  {
    match reason
    case Spends(c) => UsesShrink(x, secret, y, Marked(word), c);
    case Loses(piece) => PlacesShrink(x, secret, y, Marked(word), piece);
    case _ =>
      forall n: nat
        ensures Scan(reason, Marked(word) + y, n) < Scan(reason, secret + y, n)
      {
        MarkedScan(reason, word, y, n);
        SecretScan(reason, secret, y, n, word);
      }
      ScanUnder(reason, x, Marked(word) + y, secret + y, 0);
      assert x + Marked(word) + y == x + (Marked(word) + y) && x + secret + y == x + (secret + y);
  }

  // ---- counting characters ----

  lemma {:induction false} UsesInBag(s: string, c: char)
    ensures Uses(s, c) == multiset(s)[c]
  {
    if s != "" {
      UsesInBag(s[..|s| - 1], c);
      assert s == s[..|s| - 1] + [s[|s| - 1]];
    }
  }

  lemma {:induction false} UsesAdd(a: string, b: string, c: char)
    ensures Uses(a + b, c) == Uses(a, c) + Uses(b, c)
  {
    if b == "" {
      assert a + b == a;
    } else {
      UsesAdd(a, b[..|b| - 1], c);
      assert (a + b)[..|a + b| - 1] == a + b[..|b| - 1];
    }
  }

  lemma {:induction false} UsesShrink(x: string, secret: string, y: string, marker: string, c: char)
    requires Uses(secret, c) > Uses(marker, c)
    ensures Uses(x + marker + y, c) < Uses(x + secret + y, c)
  {
    UsesAdd(x, secret, c);
    UsesAdd(x + secret, y, c);
    UsesAdd(x, marker, c);
    UsesAdd(x + marker, y, c);
  }

  // ---- counting places ----

  lemma {:induction false} PlacesSplit(s: string, p: string, lo: int, mid: int, hi: int)
    requires lo <= mid <= hi
    ensures Places(s, p, lo, hi) == Places(s, p, lo, mid) + Places(s, p, mid, hi)
    decreases hi - mid
  {
    if mid < hi {
      PlacesSplit(s, p, lo, mid, hi - 1);
    }
  }

  /** Places of p in s that are places in t, moved by an offset, are no more than those. */
  lemma {:induction false} PlacesCompare(s: string, t: string, p: string, offset: int, lo: int, hi: int)
    requires forall i | lo <= i < hi && MatchAt(s, p, i) :: MatchAt(t, p, i - offset)
    ensures Places(s, p, lo, hi) <= Places(t, p, lo - offset, hi - offset)
    decreases hi - lo
  {
    if lo < hi {
      PlacesCompare(s, t, p, offset, lo, hi - 1);
    }
  }

  lemma {:induction false} NoPlaces(s: string, p: string, lo: int, hi: int)
    requires p != "" && lo >= |s|
    ensures Places(s, p, lo, hi) == 0
    decreases hi - lo
  {
    if lo < hi {
      NoPlaces(s, p, lo, hi - 1);
    }
  }

  lemma {:induction false} OnePlace(s: string, p: string, lo: int, at: int, hi: int)
    requires lo <= at < hi && MatchAt(s, p, at)
    ensures Places(s, p, lo, hi) >= 1
    decreases hi
  {
    if at < hi - 1 {
      OnePlace(s, p, lo, at, hi - 1);
    }
  }

  lemma {:induction false} MatchesMove(x: string, r: string, y: string, p: string, i: int)
    ensures MatchAt(x, p, i) ==> MatchAt(x + r + y, p, i)
    ensures MatchAt(y, p, i) ==> MatchAt(x + r + y, p, i + |x| + |r|)
    ensures MatchAt(r, p, i) ==> MatchAt(x + r + y, p, i + |x|)
  {
    if MatchAt(x, p, i) {
      MatchInside("", x, r + y, p, i);
      assert "" + x + (r + y) == x + r + y;
    }
    if MatchAt(y, p, i) {
      MatchInside(x + r, y, "", p, i);
      assert x + r + y + "" == x + r + y;
    }
    if MatchAt(r, p, i) {
      MatchInside(x, r, y, p, i);
    }
  }

  /** A text that holds p adds a place to those beside it. */
  lemma {:induction false} PlacesAround(x: string, r: string, y: string, p: string, w: int, t: string)
    requires p != "" && MatchAt(r, p, w) && t == x + r + y
    ensures Places(t, p, 0, |t|) >= Places(x, p, 0, |x|) + Places(y, p, 0, |y|) + 1
  {
    var n, m := |x|, |x| + |r|;
    PlacesInFront(x, r, y, p, t);
    PlacesBehind(x, r, y, p, t);
    MatchesMove(x, r, y, p, w);
    OnePlace(t, p, n, n + w, m);
    PlacesSplit(t, p, 0, n, |t|);
    PlacesSplit(t, p, n, m, |t|);
  }

  lemma {:induction false} PlacesInFront(x: string, r: string, y: string, p: string, t: string)
    requires t == x + r + y
    ensures Places(x, p, 0, |x|) <= Places(t, p, 0, |x|)
  {
    forall i | MatchAt(x, p, i)
      ensures MatchAt(t, p, i - 0)
    {
      MatchesMove(x, r, y, p, i);
    }
    PlacesCompare(x, t, p, 0, 0, |x|);
  }

  lemma {:induction false} PlacesBehind(x: string, r: string, y: string, p: string, t: string)
    requires t == x + r + y
    ensures Places(y, p, 0, |y|) <= Places(t, p, |x| + |r|, |t|)
  {
    var m := |x| + |r|;
    forall i | MatchAt(y, p, i)
      ensures MatchAt(t, p, i - (-m))
    {
      MatchesMove(x, r, y, p, i);
    }
    PlacesCompare(y, t, p, -m, 0, |y|);
  }

  /** A text that makes none adds none. */
  lemma {:induction false} PlacesBeside(x: string, r: string, y: string, p: string, t: string)
    requires p != "" && Inert(r, p) && t == x + r + y
    ensures Places(t, p, 0, |t|) <= Places(x, p, 0, |x|) + Places(y, p, 0, |y|)
  {
    var m := |x| + |r|;
    forall i | MatchAt(t, p, i)
      ensures i < m ==> MatchAt(x, p, i - 0)
      ensures i >= m ==> MatchAt(y, p, i - m)
    {
      assert MatchAt(x, p, i) || MatchAt(y, p, i - |x| - |r|);
    }
    PlacesCompare(t, x, p, 0, 0, m);
    PlacesCompare(t, y, p, m, m, |t|);
    PlacesSplit(t, p, 0, m, |t|);
    PlacesSplit(x, p, 0, |x|, m);
    NoPlaces(x, p, |x|, m);
  }

  lemma {:induction false} PlacesShrink(x: string, secret: string, y: string, marker: string, p: string)
    requires p != "" && Occurs(secret, p) && Inert(marker, p)
    ensures var t, u := x + marker + y, x + secret + y; Places(t, p, 0, |t|) < Places(u, p, 0, |u|)
  {
    var w :| MatchAt(secret, p, w);
    PlacesAround(x, secret, y, p, w, x + secret + y);
    PlacesBeside(x, marker, y, p, x + marker + y);
  }

  /** A piece that holds brackets at its ends only, and is not part of the marker, is never made by a marker. */
  lemma {:induction false} MarkerMakesNone(word: string, p: string)
    requires BracketFree(word) && p != "" && !Occurs(Marked(word), p)
    requires (forall k | 0 < k < |p| :: p[k] != '[') && forall k | 0 <= k < |p| - 1 :: p[k] != ']'
    ensures Inert(Marked(word), p)
  {
    var m := Marked(word);
    forall x, y, i | MatchAt(x + m + y, p, i)
      ensures MatchAt(x, p, i) || MatchAt(y, p, i - |x| - |m|)
    {
      Apart(x, m, y, p, i);
    }
  }

  lemma {:induction false} CharInside(t: string, p: string, i: int, at: int)
    requires MatchAt(t, p, i) && i <= at < i + |p|
    ensures t[at] == p[at - i]
  {
    assert t[i..i + |p|][at - i] == p[at - i];
  }

  lemma {:induction false} Apart(x: string, m: string, y: string, p: string, i: int)
    requires MatchAt(x + m + y, p, i) && p != "" && !Occurs(m, p)
    requires m != "" && m[0] == '[' && m[|m| - 1] == ']'
    requires (forall k | 0 < k < |p| :: p[k] != '[') && forall k | 0 <= k < |p| - 1 :: p[k] != ']'
    ensures MatchAt(x, p, i) || MatchAt(y, p, i - |x| - |m|)
  {
    var t := x + m + y;
    assert t[|x|] == '[' && t[|x| + |m| - 1] == ']';
    if i + |p| <= |x| {
      assert x[i..i + |p|] == t[i..i + |p|];
    } else if i >= |x| + |m| {
      assert y[i - |x| - |m|..i - |x| - |m| + |p|] == t[i..i + |p|];
    } else if i < |x| {
      CharInside(t, p, i, |x|);
    } else if i + |p| > |x| + |m| {
      CharInside(t, p, i, |x| + |m| - 1);
    } else {
      InsideMarker(x, m, y, p, i);
    }
  }

  lemma {:induction false} InsideMarker(x: string, m: string, y: string, p: string, i: int)
    requires MatchAt(x + m + y, p, i) && |x| <= i && i + |p| <= |x| + |m|
    ensures Occurs(m, p)
  {
    assert m[i - |x|..i - |x| + |p|] == (x + m + y)[i..i + |p|];
    assert MatchAt(m, p, i - |x|);
  }

  // ---- the weighted counts ----

  predicate IsCount(reason: Reason) {
    reason.Climbs? || reason.Falls? || reason.Crosses?
  }

  lemma {:induction false} ScanGrows(reason: Reason, t: string, n: nat, n': nat)
    requires n <= n'
    ensures Scan(reason, t, n) <= Scan(reason, t, n')
    decreases |t|
  {
    if t != "" {
      ScanGrows(reason, t[1..], Weigh(reason, t[0], n).1, Weigh(reason, t[0], n').1);
    }
  }

  /** What is smaller after every weight is smaller behind any text. */
  lemma {:induction false} ScanUnder(reason: Reason, x: string, u: string, v: string, n: nat)
    requires forall k: nat :: Scan(reason, u, k) < Scan(reason, v, k)
    ensures Scan(reason, x + u, n) < Scan(reason, x + v, n)
    decreases |x|
  {
    if x == "" {
      assert x + u == u && x + v == v;
    } else {
      ScanUnder(reason, x[1..], u, v, Weigh(reason, x[0], n).1);
      assert (x + u)[1..] == x[1..] + u && (x + v)[1..] == x[1..] + v;
    }
  }

  lemma {:induction false} ScanStep(reason: Reason, c: char, rest: string, n: nat)
    ensures Scan(reason, [c] + rest, n) == Weigh(reason, c, n).0 + Scan(reason, rest, Weigh(reason, c, n).1)
  {
    assert ([c] + rest)[1..] == rest;
  }

  /** Plain characters: Climbs gains weight, Falls pays it once each, Crosses ignores them. */
  lemma {:induction false} PlainScan(reason: Reason, w: string, rest: string, n: nat)
    requires BracketFree(w) && IsCount(reason)
    ensures Scan(reason, w + rest, n) == match reason
                                         case Climbs => Scan(reason, rest, n + |w|)
                                         case Falls => n * |w| + Scan(reason, rest, n)
                                         case _ => Scan(reason, rest, n)
    decreases |w|
  {
    if w == "" {
      assert w + rest == rest;
    } else {
      ScanStep(reason, w[0], w[1..] + rest, n);
      assert [w[0]] + (w[1..] + rest) == w + rest;
      PlainScan(reason, w[1..], rest, Weigh(reason, w[0], n).1);
      Once(n, |w|);
    }
  }

  lemma {:induction false} Once(n: nat, k: nat)
    requires k > 0
    ensures n + n * (k - 1) == n * k
  {
  }

  lemma {:induction false} MarkedScan(reason: Reason, word: string, y: string, n: nat)
    requires BracketFree(word) && IsCount(reason)
    ensures Scan(reason, Marked(word) + y, n) == match reason
                                                 case Climbs => n + Scan(reason, y, 0)
                                                 case Falls => Scan(reason, y, 1)
                                                 case _ => n + Scan(reason, y, n + 1)
  {
    var close := [']'] + y;
    assert Marked(word) + y == ['['] + (word + close);
    var next := Weigh(reason, '[', n).1;
    ScanStep(reason, '[', word + close, n);
    PlainScan(reason, word, close, next);
    ScanStep(reason, ']', y, if reason.Climbs? then next + |word| else next);
  }

  lemma {:induction false} SecretScan(reason: Reason, secret: string, y: string, n: nat, word: string)
    requires IsCount(reason) && secret != "" && Works(secret, word, reason)
    ensures Scan(reason, secret + y, n) > match reason
                                          case Climbs => n + Scan(reason, y, 0)
                                          case Falls => Scan(reason, y, 1)
                                          case _ => n + Scan(reason, y, n + 1)
  {
    if reason.Climbs? {
      assert secret[0] != ']' && '[' in secret[1..] by { assert secret == [secret[0]] + secret[1..]; }
      ScanStep(reason, secret[0], secret[1..] + y, n);
      assert [secret[0]] + (secret[1..] + y) == secret + y;
      ClimbAtLeast(secret[1..], y, n + 1);
    } else if reason.Falls? {
      FallAtLeast(secret, y, n);
    } else {
      var a, b, c :| BracketFree(a) && BracketFree(b) && BracketFree(c) && secret == a + "]" + b + "[" + c;
      CrossScan(a, b, c, y, n, secret + y);
    }
  }

  /** Plain characters, one bracket and then the rest. */
  lemma {:induction false} CrossStep(a: string, bracket: char, rest: string, n: nat, t: string)
    requires BracketFree(a) && t == a + [bracket] + rest
    ensures Scan(Crosses, t, n) == Weigh(Crosses, bracket, n).0 + Scan(Crosses, rest, Weigh(Crosses, bracket, n).1)
  {
    assert t == a + ([bracket] + rest);
    PlainScan(Crosses, a, [bracket] + rest, n);
    ScanStep(Crosses, bracket, rest, n);
  }

  lemma {:induction false} CrossScan(a: string, b: string, c: string, y: string, n: nat, t: string)
    requires BracketFree(a) && BracketFree(b) && BracketFree(c) && t == a + "]" + b + "[" + c + y
    ensures Scan(Crosses, t, n) == n + 1 + Scan(Crosses, y, n + 1)
  {
    var last := c + y;
    var middle := b + ['['] + last;
    assert t == a + [']'] + middle;
    CrossStep(a, ']', middle, n, t);
    CrossStep(b, '[', last, n + 1, middle);
    PlainScan(Crosses, c, y, n + 1);
  }

  lemma {:induction false} ClimbAtLeast(s: string, y: string, n: nat)
    requires ']' !in s && '[' in s
    ensures Scan(Climbs, s + y, n) >= n + Scan(Climbs, y, 0)
    decreases |s|
  {
    ScanStep(Climbs, s[0], s[1..] + y, n);
    assert [s[0]] + (s[1..] + y) == s + y;
    if s[0] == '[' {
      NoCloseScan(s[1..], y, n);
    } else {
      assert '[' in s[1..] by { assert s == [s[0]] + s[1..]; }
      ClimbAtLeast(s[1..], y, n + 1);
    }
  }

  lemma {:induction false} NoCloseScan(s: string, y: string, n: nat)
    requires ']' !in s
    ensures Scan(Climbs, s + y, n) >= Scan(Climbs, y, 0)
    decreases |s|
  {
    if s == "" {
      assert s + y == y;
      ScanGrows(Climbs, y, 0, n);
    } else {
      ScanStep(Climbs, s[0], s[1..] + y, n);
      assert [s[0]] + (s[1..] + y) == s + y;
      NoCloseScan(s[1..], y, Weigh(Climbs, s[0], n).1);
    }
  }

  lemma {:induction false} FallAtLeast(s: string, y: string, n: nat)
    requires '[' !in s && s != "" && s[|s| - 1] != ']' && (n > 0 || ']' in s)
    ensures Scan(Falls, s + y, n) > Scan(Falls, y, 1)
    decreases |s|
  {
    ScanStep(Falls, s[0], s[1..] + y, n);
    assert [s[0]] + (s[1..] + y) == s + y && s == [s[0]] + s[1..];
    if |s| == 1 {
      assert s[1..] + y == y;
      ScanGrows(Falls, y, 1, n);
    } else {
      FallAtLeast(s[1..], y, if s[0] == ']' then n + 1 else n);
    }
  }

  // ---- a reason for every secret that is not part of the marker ----

  lemma {:induction false} BagFits(secret: string, marker: string)
    requires forall c | c in secret :: Uses(secret, c) <= Uses(marker, c)
    ensures |secret| <= |marker|
  {
    forall c
      ensures Uses(secret, c) == multiset(secret)[c] && Uses(marker, c) == multiset(marker)[c]
    {
      UsesInBag(secret, c);
      UsesInBag(marker, c);
    }
    SubBagSize(multiset(secret), multiset(marker));
  }

  lemma {:induction false} SubBagSize(s: multiset<char>, m: multiset<char>)
    requires forall c | c in s :: s[c] <= m[c]
    ensures |s| <= |m|
  {
    assert m == s + (m - s);
  }

  lemma {:induction false} NoUses(s: string, c: char)
    ensures Uses(s, c) == 0 <==> c !in s
  {
    UsesInBag(s, c);
  }

  lemma {:induction false} OneUse(s: string, c: char, k: nat)
    requires k < |s| && s[k] == c && Uses(s, c) <= 1
    ensures c !in s[..k] && c !in s[k + 1..]
  {
    assert s == s[..k] + ([c] + s[k + 1..]);
    UsesAdd(s[..k], [c] + s[k + 1..], c);
    UsesAdd([c], s[k + 1..], c);
    NoUses(s[..k], c);
    NoUses(s[k + 1..], c);
    assert Uses([c], c) == 1 by { assert [c][..0] == ""; }
  }

  lemma {:induction false} MarkerUsesBracketsOnce(word: string)
    requires BracketFree(word)
    ensures Uses(Marked(word), '[') == 1 && Uses(Marked(word), ']') == 1
  {
    forall c | c == '[' || c == ']'
      ensures Uses(Marked(word), c) == 1
    {
      UsesAdd(['['] + word, [']'], c);
      UsesAdd(['['], word, c);
      NoUses(word, c);
      assert ['['][..0] == "" && [']'][..0] == "";
    }
  }

  /** Every secret that is not part of the marker has a reason to come to an end. */
  lemma {:induction false} ReasonFor(secret: string, word: string) returns (reason: Reason)
    requires BracketFree(word) && secret != "" && !Occurs(Marked(word), secret)
    ensures Works(secret, word, reason)
  {
    if c :| c in secret && Uses(secret, c) > Uses(Marked(word), c) {
      reason := Spends(c);
    } else {
      BagFits(secret, Marked(word));
      MarkerUsesBracketsOnce(word);
      NoUses(secret, '[');
      NoUses(secret, ']');
      reason := BracketReason(secret, word);
    }
  }

  lemma {:induction false} BracketReason(secret: string, word: string) returns (reason: Reason)
    requires BracketFree(word) && secret != "" && !Occurs(Marked(word), secret)
    requires Uses(secret, '[') <= 1 && Uses(secret, ']') <= 1 && |secret| <= |Marked(word)|
    ensures Works(secret, word, reason)
  {
    if '[' in secret && ']' in secret {
      reason := BothBrackets(secret, word);
    } else if '[' in secret && secret[0] != '[' {
      reason := Climbs;
    } else if ']' in secret && secret[|secret| - 1] != ']' {
      reason := Falls;
    } else {
      WholePiece(secret, word);
      reason := Loses(secret);
    }
  }

  lemma {:induction false} BothBrackets(secret: string, word: string) returns (reason: Reason)
    requires BracketFree(word) && '[' in secret && ']' in secret && !Occurs(Marked(word), secret)
    requires Uses(secret, '[') <= 1 && Uses(secret, ']') <= 1 && |secret| <= |Marked(word)|
    ensures Works(secret, word, reason)
  {
    var i :| 0 <= i < |secret| && secret[i] == '[';
    var j :| 0 <= j < |secret| && secret[j] == ']';
    OneUse(secret, '[', i);
    OneUse(secret, ']', j);
    if j < i {
      CrossedBrackets(secret, i, j);
      reason := Crosses;
    } else {
      BracketedPiece(secret, word, i, j);
      reason := Loses(secret[i..j + 1]);
    }
  }

  lemma {:induction false} CrossedBrackets(secret: string, i: nat, j: nat)
    requires j < i < |secret| && secret[i] == '[' && secret[j] == ']'
    requires '[' !in secret[..i] && '[' !in secret[i + 1..] && ']' !in secret[..j] && ']' !in secret[j + 1..]
    ensures exists a, b, c | BracketFree(a) && BracketFree(b) && BracketFree(c) :: secret == a + "]" + b + "[" + c
  {
    var a, b, c := secret[..j], secret[j + 1..i], secret[i + 1..];
    assert forall k | 0 <= k < |a| :: a[k] == secret[..i][k] && a[k] == secret[..j][k];
    assert forall k | 0 <= k < |b| :: b[k] == secret[..i][k + j + 1] && b[k] == secret[j + 1..][k];
    assert forall k | 0 <= k < |c| :: c[k] == secret[i + 1..][k] && c[k] == secret[j + 1..][k + i - j];
    assert BracketFree(a) && BracketFree(b) && BracketFree(c) && secret == a + "]" + b + "[" + c;
  }

  lemma {:induction false} BracketedPiece(secret: string, word: string, i: nat, j: nat)
    requires BracketFree(word) && i < j < |secret| && secret[i] == '[' && secret[j] == ']'
    requires '[' !in secret[i + 1..] && ']' !in secret[..j]
    requires !Occurs(Marked(word), secret) && |secret| <= |Marked(word)|
    ensures Occurs(secret, secret[i..j + 1]) && Inert(Marked(word), secret[i..j + 1])
  {
    var p, m := secret[i..j + 1], Marked(word);
    assert MatchAt(secret, p, i);
    assert forall k | 0 < k < |p| :: p[k] == secret[i + 1..][k - 1];
    assert forall k | 0 <= k < |p| - 1 :: p[k] == secret[..j][k + i];
    forall at
      ensures !MatchAt(m, p, at)
    {
      if MatchAt(m, p, at) {
        WholeMarker(word, p, at);
        PieceIsAll(secret, p, i);
      }
    }
    MarkerMakesNone(word, p);
  }

  lemma {:induction false} PieceIsAll(secret: string, p: string, i: nat)
    requires MatchAt(secret, p, i) && |secret| <= |p|
    ensures Occurs(p, secret)
  {
    assert secret == secret[i..i + |p|];
    assert p[0..|secret|] == secret;
    assert MatchAt(p, secret, 0);
  }

  /** Only the whole marker stands in it from a '[' to a ']'. */
  lemma {:induction false} WholeMarker(word: string, p: string, at: int)
    requires BracketFree(word) && MatchAt(Marked(word), p, at)
    requires |p| >= 2 && p[0] == '[' && p[|p| - 1] == ']'
    ensures at == 0 && p == Marked(word)
  {
    var m := Marked(word);
    CharInside(m, p, at, at);
    CharInside(m, p, at, at + |p| - 1);
    assert forall k | 0 < k < |m| - 1 :: m[k] == word[k - 1] && m[k] != '[' && m[k] != ']';
    assert m[at..at + |p|] == m;
  }

  lemma {:induction false} WholePiece(secret: string, word: string)
    requires BracketFree(word) && secret != "" && !Occurs(Marked(word), secret)
    requires Uses(secret, '[') <= 1 && Uses(secret, ']') <= 1
    requires '[' in secret ==> secret[0] == '['
    requires ']' in secret ==> secret[|secret| - 1] == ']'
    ensures Occurs(secret, secret) && Inert(Marked(word), secret)
  {
    assert secret[0..|secret|] == secret && MatchAt(secret, secret, 0);
    if '[' in secret {
      OneUse(secret, '[', 0);
    }
    if ']' in secret {
      OneUse(secret, ']', |secret| - 1);
    }
    assert forall k | 0 < k < |secret| :: secret[k] == secret[1..][k - 1] && secret[k] in secret;
    assert forall k | 0 <= k < |secret| - 1 :: secret[k] == secret[..|secret| - 1][k] && secret[k] in secret;
    MarkerMakesNone(word, secret);
  }
}
