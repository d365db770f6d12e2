/** Scrubbing of registered credentials from every string that leaves the transport layer. */
module Redact {
  import opened Text
  import opened Lists
  import opened Replacement

  const WORD := "redacted"
  const MARKER := "[redacted]"
  const MIN_SECRET := 8

  /** s.replace(p, r): the first occurrence only. */
  function ReplaceFirst(s: string, p: string, r: string): string {
    var i := IndexOf(s, p);
    if i == -1 then s else s[..i] + r + s[i + |p|..]
  }

  /** Short secrets are not looked for; a longer one must not be part of the marker itself. */
  ghost predicate Handled(secret: string) {
    |secret| >= MIN_SECRET ==> !Occurs(MARKER, secret)
  }

  ghost predicate AllHandled(secrets: seq<string>) {
    forall s | s in secrets :: Handled(s)
  }

  predicate StartsInside(s: string, marker: string, k: int) {
    0 < k < |marker| && k <= |s| && s[..k] == marker[|marker| - k..]
  }

  predicate EndsInside(s: string, marker: string, k: int) {
    0 < k < |marker| && k <= |s| && s[|s| - k..] == marker[..k]
  }

  /** The text starts with the end of a marker, ends with the start of one, or holds one. */
  predicate Completable(s: string, marker: string) {
    || (exists k | 0 < k < |marker| :: StartsInside(s, marker, k))
    || (exists k | 0 < k < |marker| :: EndsInside(s, marker, k))
    || IndexOf(s, marker) != -1
  }

  /** The inner loop: replace the first occurrence until there is none. */
  function Scrub(text: string, secret: string): (out: string)
    requires Handled(secret)
    ensures |secret| >= MIN_SECRET ==> !Occurs(out, secret)
    decreases if |secret| < MIN_SECRET then 0 else Measure(Why(secret), text)
  {
    IndexOfIsFirst(text, secret);
    if |secret| < MIN_SECRET || IndexOf(text, secret) == -1 then text
    else
      Shrinks(text, secret, Why(secret));
      Scrub(ReplaceFirst(text, secret, MARKER), secret)
  }

  /** The listed secrets in turn. */
  function RedactAll(text: string, secrets: seq<string>): string
    requires AllHandled(secrets)
    decreases |secrets|
  {
    if secrets == [] then text
    else
      var n := |secrets| - 1;
      assert secrets[n] in secrets && AllHandled(secrets[..n]);
      Scrub(RedactAll(text, secrets[..n]), secrets[n])
  }

  /** One secret, step by step: a text is left alone when the secret has fewer than eight characters or does not occur;
      else its first occurrence becomes the marker, and the rest of the work is the same on that. */
  lemma {:induction false} ScrubStepByStep(text: string, secret: string, i: int)
    requires Handled(secret)
    ensures |secret| < 8 ==> Scrub(text, secret) == text
    ensures !Occurs(text, secret) ==> Scrub(text, secret) == text
    ensures |secret| >= 8 && MatchAt(text, secret, i) && (forall j | 0 <= j < i :: !MatchAt(text, secret, j)) ==>
      Scrub(text, secret) == Scrub(text[..i] + "[redacted]" + text[i + |secret|..], secret)
  {
    IndexOfIsFirst(text, secret);
    if |secret| >= 8 && MatchAt(text, secret, i) && forall j | 0 <= j < i :: !MatchAt(text, secret, j) {
      FirstIsReplaced(text, secret, i, text[..i] + "[redacted]" + text[i + |secret|..]);
    }
  }

  lemma {:induction false} FirstIsReplaced(text: string, secret: string, i: nat, next: string)
    requires Handled(secret) && |secret| >= MIN_SECRET && IndexOf(text, secret) == i
    requires next == text[..i] + "[redacted]" + text[i + |secret|..]
    ensures Scrub(text, secret) == Scrub(next, secret)
  {
    assert next == ReplaceFirst(text, secret, MARKER);
  }

  lemma {:induction false} RedactLast(text: string, init: seq<string>, last: string)
    requires AllHandled(init) && Handled(last)
    ensures AllHandled(init + [last])
    ensures RedactAll(text, init + [last]) == Scrub(RedactAll(text, init), last)
  {
    var secrets := init + [last];
    assert secrets[..|init|] == init && secrets[|init|] == last;
  }

  /** Listed secrets of fewer than eight characters, the empty one included, change nothing. */
  lemma {:induction false} ShortSecretsAreIgnored(text: string, secrets: seq<string>, long: string -> bool)
    requires AllHandled(secrets) && forall s :: long(s) <==> |s| >= 8
    ensures AllHandled(Filter(secrets, long)) && RedactAll(text, secrets) == RedactAll(text, Filter(secrets, long))
  {
    if secrets != [] {
      var n := |secrets| - 1;
      var init, last := secrets[..n], secrets[n];
      assert last in secrets && secrets == init + [last];
      ShortSecretsAreIgnored(text, init, long);
      RedactLast(text, init, last);
      if long(last) {
        RedactLast(text, Filter(init, long), last);
      } else {
        ScrubStepByStep(RedactAll(text, init), last, 0);
        assert Filter(init, long) + [] == Filter(init, long);
      }
    }
  }

  lemma {:induction false} AllShort(text: string, secrets: seq<string>)
    requires AllHandled(secrets) && forall s | s in secrets :: |s| < 8
    ensures RedactAll(text, secrets) == text
  {
    if secrets != [] {
      var n := |secrets| - 1;
      assert secrets[n] in secrets && AllHandled(secrets[..n]);
      AllShort(text, secrets[..n]);
    }
  }

  method RedactSecrets(text: string, secrets: seq<string>) returns (out: string)
    requires AllHandled(secrets)
    ensures out == RedactAll(text, secrets)
    ensures (forall s | s in secrets :: |s| < 8) ==> out == text
    ensures forall s | s in secrets && |s| >= MIN_SECRET && !Completable(s, MARKER) :: !Occurs(out, s)
    ensures secrets != [] && |secrets[|secrets| - 1]| >= MIN_SECRET ==> !Occurs(out, secrets[|secrets| - 1])
  {
    out := text;
    for k := 0 to |secrets|
      invariant AllHandled(secrets[..k]) && out == RedactAll(text, secrets[..k])
    {
      assert secrets[k] in secrets && secrets[..k + 1][..k] == secrets[..k];
      out := RedactOne(out, secrets[k]);
    }
    assert secrets[..|secrets|] == secrets;
    NothingListedRemains(text, secrets);
    if forall s | s in secrets :: |s| < 8 {
      AllShort(text, secrets);
    }
  }

  method RedactOne(text: string, secret: string) returns (out: string)
    requires Handled(secret)
    ensures out == Scrub(text, secret)
    ensures |secret| < 8 ==> out == text
  {
    out := text;
    if |secret| < MIN_SECRET { return; }
    while IndexOf(out, secret) != -1
      invariant Scrub(out, secret) == Scrub(text, secret)
      decreases Measure(Why(secret), out)
    {
      Shrinks(out, secret, Why(secret));
      out := ReplaceFirst(out, secret, MARKER);
    }
  }

  // ---- why the loop ends ----

  lemma {:induction false} MarkerIsMarked()
    ensures MARKER == Marked(WORD) && BracketFree(WORD)
  {
  }

  /** A number that each replacement of the secret lowers. */
  ghost function Why(secret: string): (reason: Reason)
    requires secret != "" && !Occurs(MARKER, secret)
    ensures Works(secret, WORD, reason)
  {
    SomeReason(secret);
    var reason :| Works(secret, WORD, reason);
    reason
  }

  lemma {:induction false} SomeReason(secret: string)
    requires secret != "" && !Occurs(MARKER, secret)
    ensures exists reason :: Works(secret, WORD, reason)
  {
    MarkerIsMarked();
    var reason := ReasonFor(secret, WORD);
  }

  /** Each replacement lowers the measure of its secret's reason. */
  lemma {:induction false} Shrinks(out: string, secret: string, reason: Reason)
    requires secret != "" && IndexOf(out, secret) != -1 && Works(secret, WORD, reason)
    ensures Measure(reason, ReplaceFirst(out, secret, MARKER)) < Measure(reason, out)
  {
    MarkerIsMarked();
    IndexOfIsFirst(out, secret);
    var i := IndexOf(out, secret);
    ReplacingShrinks(out[..i], secret, out[i + |secret|..], WORD, reason);
    assert out == out[..i] + secret + out[i + |secret|..];
  }

  // ---- the loop as one pass ----

  /** A text that no marker can be a piece of is scrubbed by one split and join. */
  lemma {:induction false} ScrubIsOnePass(text: string, secret: string)
    requires Handled(secret) && |secret| >= MIN_SECRET && !Completable(secret, MARKER)
    ensures Scrub(text, secret) == ReplaceAll(text, secret, MARKER)
    decreases Measure(Why(secret), text)
  {
    IndexOfIsFirst(text, secret);
    if IndexOf(text, secret) == -1 {
      ReplaceAllNone(text, secret, MARKER);
    } else {
      Shrinks(text, secret, Why(secret));
      InertExactlyWhen(secret, MARKER);
      InertStep(text, secret, MARKER);
      ScrubIsOnePass(ReplaceFirst(text, secret, MARKER), secret);
    }
  }

  /** Replacing the first occurrence leaves one occurrence fewer, and the same final text. */
  lemma {:induction false} InertStep(out: string, secret: string, r: string)
    requires secret != "" && IndexOf(out, secret) != -1 && Inert(r, secret)
    ensures |Split(ReplaceFirst(out, secret, r), secret)| == |Split(out, secret)| - 1
    ensures ReplaceAll(ReplaceFirst(out, secret, r), secret, r) == ReplaceAll(out, secret, r)
  {
    var next, a, parts := FirstReplaced(out, secret, r);
    JoinHead(a, parts, r);
    JoinBehind(a + r, parts, r);
  }

  /** The pieces before and after the first replacement: the text that was in front and the marker join the next piece. */
  lemma {:induction false} FirstReplaced(out: string, secret: string, r: string) returns (next: string, a: string, parts: seq<string>)
    requires secret != "" && IndexOf(out, secret) != -1 && Inert(r, secret)
    ensures parts != [] && Split(out, secret) == [a] + parts
    ensures next == ReplaceFirst(out, secret, r) && Split(next, secret) == [a + r + parts[0]] + parts[1..]
  {
    var i := IndexOf(out, secret);
    a := out[..i];
    var b := out[i + |secret|..];
    parts := Split(b, secret);
    next := a + r + b;
    FirstPieceFree(out, secret, secret);
    SplitFound(out, secret, i);
    IndexPast(a, r, b, secret);
    SplitBehind(a + r, b, secret, parts);
  }

  /** Text put in front that adds no separator only lengthens the first piece. */
  lemma {:induction false} SplitBehind(x: string, b: string, sep: string, parts: seq<string>)
    requires sep != "" && parts == Split(b, sep)
    requires IndexOf(x + b, sep) == if IndexOf(b, sep) == -1 then -1 else |x| + IndexOf(b, sep)
    ensures Split(x + b, sep) == [x + parts[0]] + parts[1..]
  {
    var j := IndexOf(b, sep);
    if j != -1 {
      SplitFound(b, sep, j);
      SplitFound(x + b, sep, |x| + j);
      assert (x + b)[|x| + j + |sep|..] == b[j + |sep|..] && (x + b)[..|x| + j] == x + b[..j];
    }
  }

  lemma {:induction false} JoinBehind(x: string, parts: seq<string>, r: string)
    requires parts != []
    ensures Join([x + parts[0]] + parts[1..], r) == x + Join(parts, r)
  {
    var longer := [x + parts[0]] + parts[1..];
    assert longer[1..] == parts[1..];
  }

  lemma {:induction false} IndexPast(a: string, r: string, b: string, secret: string)
    requires secret != "" && !Occurs(a, secret) && Inert(r, secret)
    ensures var j := IndexOf(b, secret);
      IndexOf(a + r + b, secret) == if j == -1 then -1 else |a + r| + j
  {
    var j := IndexOf(b, secret);
    IndexOfIsFirst(b, secret);
    IndexOfIsFirst(a + r + b, secret);
    if j != -1 {
      MatchInside(a + r, b, "", secret, j);
      assert a + r + b + "" == a + r + b;
    }
  }

  lemma {:induction false} JoinHead(a: string, parts: seq<string>, r: string)
    requires parts != []
    ensures Join([a] + parts, r) == a + r + Join(parts, r)
  {
    assert ([a] + parts)[1..] == parts;
  }

  // ---- what a marker can complete ----

  /** A text that is not part of the marker is safe beside markers exactly when no marker can be a piece of it. */
  lemma {:induction false} InertExactlyWhen(s: string, marker: string)
    requires s != "" && marker != "" && !Occurs(marker, s)
    ensures Inert(marker, s) <==> !Completable(s, marker)
  {
    if Completable(s, marker) {
      var x, w, y := Completion(s, marker);
      var i :| MatchAt(x + marker + y, s, i);
      assert !MatchAt(x, s, i) && !MatchAt(y, s, i - |x| - |marker|);
    } else {
      forall x, y, i | MatchAt(x + marker + y, s, i)
        ensures MatchAt(x, s, i) || MatchAt(y, s, i - |x| - |marker|)
      {
        if i + |s| <= |x| {
          assert x[i..i + |s|] == (x + marker + y)[i..i + |s|];
        } else if i >= |x| + |marker| {
          var k := i - |x| - |marker|;
          assert y[k..k + |s|] == (x + marker + y)[i..i + |s|];
        } else {
          OverlapCompletes(x, marker, y, s, i);
        }
      }
    }
  }

  lemma {:induction false} OverlapCompletes(x: string, marker: string, y: string, s: string, i: int)
    requires MatchAt(x + marker + y, s, i) && i + |s| > |x| && i < |x| + |marker|
    ensures Completable(s, marker) || Occurs(marker, s)
  {
    var t, from, end := x + marker + y, |x|, |x| + |marker|;
    if from <= i && i + |s| <= end {
      InsideMarker(x, marker, y, s, i);
    } else if i < from && i + |s| < end {
      var k := i + |s| - from;
      assert s[|s| - k..] == t[from..from + k] == marker[..k];
      assert EndsInside(s, marker, k);
    } else if from < i && end < i + |s| {
      var k := end - i;
      assert s[..k] == t[i..end] == marker[|marker| - k..];
      assert StartsInside(s, marker, k);
    } else {
      WholeMarkerInside(x, marker, y, s, i);
    }
  }

  lemma {:induction false} WholeMarkerInside(x: string, marker: string, y: string, s: string, i: int)
    requires MatchAt(x + marker + y, s, i) && i <= |x| && |x| + |marker| <= i + |s|
    ensures Completable(s, marker)
  {
    var t, at := x + marker + y, |x| - i;
    assert t[|x|..|x| + |marker|] == marker;
    assert s[at..at + |marker|] == t[i..i + |s|][at..at + |marker|] == t[|x|..|x| + |marker|];
    assert MatchAt(s, marker, at);
    IndexOfIsFirst(s, marker);
  }

  /** A completable text is some text around a piece of the marker, and stands in that text around the whole marker. */
  lemma {:induction false} Completion(s: string, marker: string) returns (x: string, w: string, y: string)
    requires Completable(s, marker) && marker != ""
    ensures s == x + w + y && w != "" && forall c | c in w :: c in marker
    ensures Occurs(x + marker + y, s)
  {
    if k :| 0 < k < |marker| && StartsInside(s, marker, k) {
      x, w, y := "", s[..k], s[k..];
      StartCompleted(s, marker, k);
    } else if k :| 0 < k < |marker| && EndsInside(s, marker, k) {
      x, w, y := s[..|s| - k], s[|s| - k..], "";
      EndCompleted(s, marker, k);
    } else {
      var k := IndexOf(s, marker);
      x, w, y := s[..k], marker, s[k + |marker|..];
      WholeCompleted(s, marker, k);
    }
  }

  lemma {:induction false} StartCompleted(s: string, marker: string, k: nat)
    requires StartsInside(s, marker, k)
    ensures s == "" + s[..k] + s[k..] && forall c | c in s[..k] :: c in marker
    ensures Occurs("" + marker + s[k..], s)
  {
    assert "" + marker + s[k..] == marker[..|marker| - k] + s;
    EndsWithIt(marker[..|marker| - k], s);
  }

  lemma {:induction false} EndCompleted(s: string, marker: string, k: nat)
    requires EndsInside(s, marker, k)
    ensures s == s[..|s| - k] + s[|s| - k..] + "" && forall c | c in s[|s| - k..] :: c in marker
    ensures Occurs(s[..|s| - k] + marker + "", s)
  {
    assert s[..|s| - k] + marker + "" == s + marker[k..];
    StartsWithIt(s, marker[k..]);
  }

  lemma {:induction false} WholeCompleted(s: string, marker: string, k: nat)
    requires marker != "" && IndexOf(s, marker) == k
    ensures s == s[..k] + marker + s[k + |marker|..] && Occurs(s[..k] + marker + s[k + |marker|..], s)
  {
    IndexOfIsFirst(s, marker);
    assert s[..k] + marker + s[k + |marker|..] == s + "";
    StartsWithIt(s, "");
  }

  lemma {:induction false} StartsWithIt(a: string, b: string)
    ensures Occurs(a + b, a)
  {
    assert (a + b)[0..|a|] == a;
    assert MatchAt(a + b, a, 0);
  }

  lemma {:induction false} EndsWithIt(a: string, b: string)
    ensures Occurs(a + b, b)
  {
    assert (a + b)[|a|..|a| + |b|] == b;
    assert MatchAt(a + b, b, |a|);
  }

  // ---- nothing listed remains ----

  /** Whatever else is listed, a secret that no marker can complete is never brought back. */
  lemma {:induction false} NothingListedRemains(text: string, secrets: seq<string>)
    requires AllHandled(secrets)
    ensures forall s | s in secrets && |s| >= MIN_SECRET && !Completable(s, MARKER) :: !Occurs(RedactAll(text, secrets), s)
  {
    forall s | s in secrets && |s| >= MIN_SECRET && !Completable(s, MARKER)
      ensures !Occurs(RedactAll(text, secrets), s)
    {
      assert Handled(s);
      InertExactlyWhen(s, MARKER);
      InertStaysOut(text, secrets, s, MARKER);
    }
  }

  lemma {:induction false} InertStaysOut(text: string, secrets: seq<string>, s: string, marker: string)
    requires AllHandled(secrets) && s in secrets && |s| >= MIN_SECRET && Inert(marker, s) && marker == MARKER
    ensures !Occurs(RedactAll(text, secrets), s)
    decreases |secrets|
  {
    var n := |secrets| - 1;
    if s != secrets[n] {
      assert s in secrets[..n] && secrets[n] in secrets;
      InertStaysOut(text, secrets[..n], s, marker);
      ScrubKeepsFree(RedactAll(text, secrets[..n]), secrets[n], s, marker);
    }
  }

  lemma {:induction false} ReplacingKeepsFree(text: string, from: nat, to: nat, s: string, marker: string)
    requires from <= to <= |text| && Inert(marker, s) && !Occurs(text, s)
    ensures !Occurs(text[..from] + marker + text[to..], s)
  {
    var x, y := text[..from], text[to..];
    assert text == "" + x + text[from..] && text == text[..to] + y + "";
    FreePart("", x, text[from..], s);
    FreePart(text[..to], y, "", s);
  }

  lemma {:induction false} ScrubKeepsFree(text: string, secret: string, s: string, marker: string)
    requires Handled(secret) && Inert(marker, s) && !Occurs(text, s) && marker == MARKER
    ensures !Occurs(Scrub(text, secret), s)
    decreases if |secret| < MIN_SECRET then 0 else Measure(Why(secret), text)
  {
    var i := IndexOf(text, secret);
    IndexOfIsFirst(text, secret);
    if |secret| >= MIN_SECRET && i != -1 {
      Shrinks(text, secret, Why(secret));
      ReplacingKeepsFree(text, i, i + |secret|, s, marker);
      ScrubKeepsFree(ReplaceFirst(text, secret, MARKER), secret, s, marker);
    }
  }

  /** Every secret that a marker can complete comes back, in some text, when a later secret is replaced. */
  lemma {:induction false} CompletableComesBack(s: string) returns (text: string, later: string)
    requires Handled(s) && |s| >= MIN_SECRET && Completable(s, MARKER)
    ensures AllHandled([s, later]) && !Completable(later, MARKER) && !Occurs(text, s)
    ensures Occurs(RedactAll(text, [s, later]), s)
  {
    var x, w, y := Completion(s, MARKER);
    var n := |s| + |MARKER|;
    later := Filler(n);
    text := x + later + y;
    FillerIsHandled(n, MARKER);
    FillerSeparates(x, w, y, n, MARKER);
    FillerIsFirst(x, y, n);
    OnePairApart(s, later, x, y, MARKER);
  }

  /** A secret is built by a marker in the place of a later one. */
  lemma {:induction false} OnePairApart(s: string, later: string, x: string, y: string, marker: string)
    requires AllHandled([s, later]) && |s| >= MIN_SECRET && |later| >= MIN_SECRET && marker == MARKER
    requires var text := x + later + y;
      !Occurs(text, s) && IndexOf(text, later) == |x| && |x + marker + y| < |later|
    ensures RedactAll(x + later + y, [s, later]) == x + marker + y
  {
    var text, next := x + later + y, x + marker + y;
    IndexOfIsFirst(text, s);
    IndexOfIsFirst(next, later);
    assert [s, later][..1] == [s] && [s][..0] == [];
    assert RedactAll(text, []) == text;
    assert RedactAll(text, [s]) == Scrub(text, s) == text;
    assert ReplaceFirst(text, later, MARKER) == next;
    assert Scrub(text, later) == Scrub(next, later) == next;
  }

  /** A text of n + 1 characters that shares none with the marker and never overlaps itself. */
  function Filler(n: nat): (f: string)
    ensures |f| == n + 1 && f[0] == 'x'
    ensures forall k | 0 < k <= n :: f[k] == 'y'
  {
    ['x'] + seq(n, _ => 'y')
  }

  lemma {:induction false} FillerIsHandled(n: nat, marker: string)
    requires n >= |marker| > 0 && 'x' !in marker && 'y' !in marker
    ensures !Occurs(marker, Filler(n)) && !Completable(Filler(n), marker)
  {
    var f := Filler(n);
    FreeOf(marker, f, 0);
    assert marker[0] !in f;
    FreeOf(f, marker, 0);
    IndexOfIsFirst(f, marker);
    forall k
      ensures !StartsInside(f, marker, k) && !EndsInside(f, marker, k)
    {
      if 0 < k < |marker| {
        assert f[..k][0] == 'x' && marker[|marker| - k..][0] == marker[|marker| - k] && marker[|marker| - k] in marker;
        assert f[|f| - k..][0] == 'y' && marker[..k][0] == marker[0];
      }
    }
  }

  lemma {:induction false} FillerSeparates(x: string, w: string, y: string, n: nat, marker: string)
    requires 'x' !in marker && 'y' !in marker && w != "" && forall c | c in w :: c in marker
    ensures !Occurs(x + Filler(n) + y, x + w + y)
  {
    var t, s := x + Filler(n) + y, x + w + y;
    assert s[|x|] == w[0] && w[0] in marker;
    assert forall k | 0 <= k <= n :: t[|x| + k] == Filler(n)[k];
    forall i
      ensures MatchAt(t, s, i) ==> t[|x| + i] == s[|x|] && i <= n
    {
      if MatchAt(t, s, i) { CharInside(t, s, i, |x| + i); }
    }
  }

  lemma {:induction false} FillerIsFirst(x: string, y: string, n: nat)
    requires |x| <= n
    ensures IndexOf(x + Filler(n) + y, Filler(n)) == |x|
  {
    var f := Filler(n);
    var t := x + f + y;
    assert t[|x|..|x| + |f|] == f && MatchAt(t, f, |x|);
    assert t[|x|] == 'x';
    IndexOfIsFirst(t, f);
    CharInside(t, f, IndexOf(t, f), |x|);
  }

  /** The promise for one secret: it is in no text that comes out, whatever is listed with it. */
  ghost predicate StaysOut(s: string) {
    forall text: string, secrets: seq<string> | AllHandled(secrets) && s in secrets :: !Occurs(RedactAll(text, secrets), s)
  }

  /** The exact condition for the promise: no marker can complete the secret. */
  lemma {:induction false} StaysOutExactlyWhen(s: string)
    requires Handled(s) && |s| >= MIN_SECRET
    ensures StaysOut(s) <==> !Completable(s, MARKER)
  {
    if Completable(s, MARKER) {
      var text, later := CompletableComesBack(s);
      ComesBack(text, [s, later], s);
    } else {
      forall text, secrets | AllHandled(secrets) && s in secrets
        ensures !Occurs(RedactAll(text, secrets), s)
      {
        NothingListedRemains(text, secrets);
      }
    }
  }

  lemma {:induction false} ComesBack(text: string, secrets: seq<string>, s: string)
    requires AllHandled(secrets) && s in secrets && Occurs(RedactAll(text, secrets), s)
    ensures !StaysOut(s)
  {
  }

  // ---- which secrets the loop ends for ----

  function Rounds(text: string, secret: string, marker: string, n: nat): string
    decreases n
  {
    if n == 0 then text else Rounds(ReplaceFirst(text, secret, marker), secret, marker, n - 1)
  }

  ghost predicate Ends(text: string, secret: string) {
    exists n: nat :: !Occurs(Rounds(text, secret, MARKER, n), secret)
  }

  lemma {:induction false} MarkerPartStays(text: string, secret: string, marker: string)
    requires Occurs(marker, secret) && Occurs(text, secret)
    ensures Occurs(ReplaceFirst(text, secret, marker), secret)
  {
    IndexOfIsFirst(text, secret);
    var i := IndexOf(text, secret);
    var k :| MatchAt(marker, secret, k);
    MatchInside(text[..i], marker, text[i + |secret|..], secret, k);
  }

  lemma {:induction false} RoundsKeep(holds: string -> bool, text: string, secret: string, marker: string, n: nat)
    requires holds(text) && forall s | holds(s) :: holds(ReplaceFirst(s, secret, marker))
    ensures holds(Rounds(text, secret, marker, n))
    decreases n
  {
    if n > 0 {
      RoundsKeep(holds, ReplaceFirst(text, secret, marker), secret, marker, n - 1);
    }
  }

  /** A "secret" that is part of the marker is put back by every replacement: the loop never ends. */
  lemma {:induction false} MarkerPartNeverLeaves(text: string, secret: string, marker: string, n: nat)
    requires Occurs(marker, secret) && Occurs(text, secret)
    ensures Occurs(Rounds(text, secret, marker, n), secret)
  {
    var holds := (s: string) => Occurs(s, secret);
    forall s | holds(s)
      ensures holds(ReplaceFirst(s, secret, marker))
    {
      MarkerPartStays(s, secret, marker);
    }
    RoundsKeep(holds, text, secret, marker, n);
  }

  lemma {:induction false} EndsInTime(text: string, secret: string, reason: Reason)
    requires secret != "" && Works(secret, WORD, reason)
    ensures Ends(text, secret)
    decreases Measure(reason, text)
  {
    IndexOfIsFirst(text, secret);
    if IndexOf(text, secret) == -1 {
      assert !Occurs(Rounds(text, secret, MARKER, 0), secret);
    } else {
      Shrinks(text, secret, reason);
      var next := ReplaceFirst(text, secret, MARKER);
      EndsInTime(next, secret, reason);
      OneRoundMore(text, next, secret);
    }
  }

  lemma {:induction false} OneRoundMore(text: string, next: string, secret: string)
    requires next == ReplaceFirst(text, secret, MARKER) && Ends(next, secret)
    ensures Ends(text, secret)
  {
    var m: nat :| !Occurs(Rounds(next, secret, MARKER, m), secret);
    assert Rounds(text, secret, MARKER, m + 1) == Rounds(next, secret, MARKER, m);
  }

  /** Whatever characters a secret has, the loop ends on every text exactly when the secret is not part of the marker. */
  lemma {:induction false} EndsExactlyWhen(secret: string)
    requires |secret| >= MIN_SECRET
    ensures (forall text :: Ends(text, secret)) <==> !Occurs(MARKER, secret)
  {
    if Occurs(MARKER, secret) {
      forall n: nat
        ensures Occurs(Rounds(MARKER, secret, MARKER, n), secret)
      {
        MarkerPartNeverLeaves(MARKER, secret, MARKER, n);
      }
      assert !Ends(MARKER, secret);
    } else {
      MarkerIsMarked();
      var reason := ReasonFor(secret, WORD);
      forall text
        ensures Ends(text, secret)
      {
        EndsInTime(text, secret, reason);
      }
    }
  }
}
