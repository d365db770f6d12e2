/** When two texts are the same to a rule, said without the functions that compare them. */
module Comparing {
  import opened Text
  import opened Evidence
  import opened Evaluate

  /** Both texts without the white space around them: address fields without case, every other field exactly. */
  ghost predicate Agree(e: Engine, field: Field, a: string, b: string) {
    exists a', b' | IsCore(a, a') && IsCore(b, b') ::
      if field in {RecordEmail, MessageRecipient} then e.lower(a') == e.lower(b') else a' == b'
  }

  lemma {:induction false} SameTextAgrees(e: Engine, field: Field, a: string, b: string)
    ensures SameText(e, field, a, b) <==> Agree(e, field, a, b)
  {
    TrimIsCore(a, Trim(a));
    TrimIsCore(b, Trim(b));
    if Agree(e, field, a, b) {
      var a', b' :| IsCore(a, a') && IsCore(b, b')
        && if field in {RecordEmail, MessageRecipient} then e.lower(a') == e.lower(b') else a' == b';
      TrimIsCore(a, a');
      TrimIsCore(b, b');
    }
  }

  /** `Name <inner>` at the end of s; inner holds no angle bracket. */
  ghost predicate Angled(s: string, name: string, inner: string) {
    '<' !in inner && '>' !in inner && s == name + "<" + inner + ">"
  }

  ghost predicate Inner(s: string, inner: string) {
    (exists name :: Angled(s, name, inner)) || (inner == s && forall name, other :: !Angled(s, name, other))
  }

  ghost predicate IsQuote(c: char) {
    c == '"'
  }

  ghost function LowerHalves(lower: string -> string, local: string, domain: string): string
    requires domain != ""
  {
    lower(local) + "@" + lower(if domain[|domain| - 1] == '.' then domain[..|domain| - 1] else domain)
  }

  /** Both halves in lower case around the last @, the domain without one trailing dot. */
  ghost predicate Folded(lower: string -> string, s: string, address: string) {
    if exists local, domain :: Halves(s, local, domain) then
      exists local, domain | Halves(s, local, domain) ::
        address == LowerHalves(lower, local, domain)
    else address == lower(s)
  }

  ghost predicate Halves(s: string, local: string, domain: string) {
    local != "" && domain != "" && '@' !in domain && s == local + "@" + domain
  }

  /** The address a text writes: out of its angle brackets and quotes, folded. */
  ghost predicate IsAddress(lower: string -> string, raw: string, address: string) {
    exists outer, inner, bare, plain, core ::
      && IsCore(raw, outer) && Inner(outer, inner) && IsCore(inner, bare)
      && StripsTo(IsQuote, bare, plain) && IsCore(plain, core)
      && Folded(lower, core, address)
  }

  lemma {:induction false} InnerIsUnangled(s: string, inner: string)
    ensures Inner(s, inner) <==> inner == Unangle(s)
  {
    var open := LastIndexOfChar(s, '<');
    var u := Unangle(s);
    if s != "" && s[|s| - 1] == '>' && open >= 0 && '>' !in s[open + 1..|s| - 1] {
      assert Angled(s, s[..open], u);
    }
    forall name, other | Angled(s, name, other)
      ensures other == u
    {
      AngledAt(s, name, other);
    }
  }

  lemma {:induction false} AngledAt(s: string, name: string, inner: string)
    requires Angled(s, name, inner)
    ensures Unangle(s) == inner && s != "" && s[|s| - 1] == '>' && LastIndexOfChar(s, '<') == |name|
  {
    assert s[|name|] == '<' && s[|s| - 1] == '>';
    assert forall i | |name| < i < |s| - 1 :: s[i] == inner[i - |name| - 1] && inner[i - |name| - 1] in inner;
    assert s[|name| + 1..|s| - 1] == inner;
  }

  lemma {:induction false} QuotesStartSplit(s: string) returns (before: string)
    ensures AllMarked(IsQuote, before) && s == before + StripQuotesStart(s)
    ensures StripQuotesStart(s) != "" ==> StripQuotesStart(s)[0] != '"'
  {
    if s != "" && s[0] == '"' {
      var rest := QuotesStartSplit(s[1..]);
      before := [s[0]] + rest;
    } else {
      before := "";
    }
  }

  lemma {:induction false} QuotesEndSplit(s: string) returns (after: string)
    ensures AllMarked(IsQuote, after) && s == StripQuotesEnd(s) + after
    ensures var t := StripQuotesEnd(s); t != "" ==> t[|t| - 1] != '"' && t[0] == s[0]
  {
    if s != "" && s[|s| - 1] == '"' {
      var rest := QuotesEndSplit(s[..|s| - 1]);
      after := rest + [s[|s| - 1]];
      assert s == s[..|s| - 1] + [s[|s| - 1]];
    } else {
      after := "";
    }
  }

  lemma {:induction false} QuotesAreStripped(s: string, inner: string)
    ensures StripsTo(IsQuote, s, inner) <==> inner == StripQuotes(s)
  {
    var before := QuotesStartSplit(s);
    var after := QuotesEndSplit(StripQuotesStart(s));
    assert s == before + StripQuotes(s) + after;
    assert StripsTo(IsQuote, s, StripQuotes(s));
    if StripsTo(IsQuote, s, inner) {
      StrippedIsUnique(IsQuote, s, inner, StripQuotes(s));
    }
  }

  lemma {:induction false} HalvesAt(s: string, local: string, domain: string)
    requires Halves(s, local, domain)
    ensures LastIndexOfChar(s, '@') == |local| && s[..|local|] == local && s[|local| + 1..] == domain
  {
    assert s[|local|] == '@';
    assert forall i | |local| < i < |s| :: s[i] == domain[i - |local| - 1] && domain[i - |local| - 1] in domain;
  }

  lemma {:induction false} HalvesExist(s: string, at: int)
    requires at == LastIndexOfChar(s, '@')
    ensures (exists local, domain :: Halves(s, local, domain)) <==> 0 < at < |s| - 1
    ensures 0 < at < |s| - 1 ==> Halves(s, s[..at], s[at + 1..])
  {
    if 0 < at < |s| - 1 {
      var domain := s[at + 1..];
      assert forall k | 0 <= k < |domain| :: domain[k] == s[at + 1 + k] && domain[k] != '@';
      assert s == s[..at] + [s[at]] + domain;
      assert Halves(s, s[..at], domain);
    }
    if local, domain :| Halves(s, local, domain) {
      HalvesAt(s, local, domain);
    }
  }

  lemma {:induction false} FoldedIsFold(lower: string -> string, s: string, address: string)
    ensures Folded(lower, s, address) <==> address == FoldAddress(lower, s)
  {
    var at := LastIndexOfChar(s, '@');
    HalvesExist(s, at);
    if 0 < at < |s| - 1 {
      var local, domain := s[..at], s[at + 1..];
      assert FoldAddress(lower, s) == LowerHalves(lower, local, domain);
      OnlyHalves(lower, s, local, domain, address);
    }
  }

  lemma {:induction false} OnlyHalves(lower: string -> string, s: string, local: string, domain: string, address: string)
    requires Halves(s, local, domain)
    ensures Folded(lower, s, address) <==> address == LowerHalves(lower, local, domain)
  {
    forall l, d | Halves(s, l, d)
      ensures l == local && d == domain
    {
      HalvesAt(s, local, domain);
      HalvesAt(s, l, d);
    }
  }

  lemma {:induction false} NormalisedIsAddress(lower: string -> string, raw: string, address: string)
    ensures IsAddress(lower, raw, address) <==> address == NormaliseEmailAddress(lower, raw)
  {
    var outer := Trim(raw);
    var inner := Unangle(outer);
    var bare := Trim(inner);
    var plain := StripQuotes(bare);
    AddressSteps(lower, raw, outer, inner, bare, plain, Trim(plain), NormaliseEmailAddress(lower, raw));
    if IsAddress(lower, raw, address) {
      var outer, inner, bare, plain, core :|
        && IsCore(raw, outer) && Inner(outer, inner) && IsCore(inner, bare)
        && StripsTo(IsQuote, bare, plain) && IsCore(plain, core) && Folded(lower, core, address);
      AddressSteps(lower, raw, outer, inner, bare, plain, core, address);
    }
  }

  lemma {:induction false} AddressSteps(lower: string -> string, raw: string, outer: string, inner: string, bare: string,
                                        plain: string, core: string, address: string)
    ensures IsCore(raw, outer) <==> outer == Trim(raw)
    ensures Inner(outer, inner) <==> inner == Unangle(outer)
    ensures IsCore(inner, bare) <==> bare == Trim(inner)
    ensures StripsTo(IsQuote, bare, plain) <==> plain == StripQuotes(bare)
    ensures IsCore(plain, core) <==> core == Trim(plain)
    ensures Folded(lower, core, address) <==> address == FoldAddress(lower, core)
  {
    TrimIsCore(raw, outer);
    InnerIsUnangled(outer, inner);
    TrimIsCore(inner, bare);
    QuotesAreStripped(bare, plain);
    TrimIsCore(plain, core);
    FoldedIsFold(lower, core, address);
  }

  lemma {:induction false} SameAddress(lower: string -> string, a: string, b: string)
    ensures NormaliseEmailAddress(lower, a) == NormaliseEmailAddress(lower, b)
            <==> exists address :: IsAddress(lower, a, address) && IsAddress(lower, b, address)
  {
    NormalisedIsAddress(lower, a, NormaliseEmailAddress(lower, a));
    NormalisedIsAddress(lower, b, NormaliseEmailAddress(lower, a));
    if address :| IsAddress(lower, a, address) && IsAddress(lower, b, address) {
      NormalisedIsAddress(lower, a, address);
      NormalisedIsAddress(lower, b, address);
    }
  }
}
