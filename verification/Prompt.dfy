/** Context assembly of the assistant: the fence around text that nobody on our side wrote. */
module Prompt {
  import opened Text
  import opened Lists

  const FENCE_OPEN := "<<<UNTRUSTED_DATA"
  const FENCE_CLOSE := "END_UNTRUSTED_DATA>>>"
  const NEUTRAL_OPEN := "<<-UNTRUSTED_DATA"
  const NEUTRAL_CLOSE := "END-UNTRUSTED_DATA->>"

  const MAX_HISTORY_MESSAGES := 12
  const MAX_MESSAGE_CHARS := 4000
  const MAX_TOOL_RESULT_CHARS := 4000
  const MAX_UNTRUSTED_CHARS := 2000

  // ---- the pieces of a fence ----

  predicate Keeps(ch: char) {
    || ch == '\n' || ch == '\t' || ch == '\r'
    || (' ' <= ch && ch != '\U{7F}' && !('\U{80}' <= ch <= '\U{9F}'))
  }

  function Stripped(text: string): string {
    seq(|text|, i requires 0 <= i < |text| => if Keeps(text[i]) then text[i] else ' ')
  }

  method StripControlCharacters(text: string) returns (out: string)
    ensures out == Stripped(text)
  {
    out := "";
    for i := 0 to |text|
      invariant out == Stripped(text)[..i]
    {
      out := out + [if Keeps(text[i]) then text[i] else ' '];
    }
  }

  function NeutraliseUntrusted(text: string): string {
    ReplaceAll(ReplaceAll(Stripped(text), FENCE_OPEN, NEUTRAL_OPEN), FENCE_CLOSE, NEUTRAL_CLOSE)
  }

  /** text.slice(0, end), where a negative end counts from the back. */
  function SliceTo(text: string, end: int): string {
    var e := if end < 0 then |text| + end else end;
    text[..if e < 0 then 0 else if e > |text| then |text| else e]
  }

  function TruncationNote(missing: nat): string {
    "\U{2026}[truncated: " + Decimal(missing) + " more characters]"
  }

  function Truncate(text: string, maxChars: int): string {
    if |text| <= maxChars then text
    else SliceTo(text, maxChars) + "\n" + TruncationNote(|text| - maxChars)
  }

  predicate LabelChar(c: char) {
    'A' <= c <= 'Z' || 'a' <= c <= 'z' || '0' <= c <= '9' || c == '_' || c == '.' || c == '-'
  }

  function SafeLabel(name: Option<string>): (s: string)
    ensures |s| <= 60 && forall i | 0 <= i < |s| :: LabelChar(s[i])
  {
    var raw := if name.Some? then name.value else "data";
    SliceTo(seq(|raw|, i requires 0 <= i < |raw| => if LabelChar(raw[i]) then raw[i] else '_'), 60)
  }

  function FenceUntrusted(name: Option<string>, text: string, maxChars: int): string {
    FENCE_OPEN + " name=\"" + SafeLabel(name) + "\">\n" + Truncate(NeutraliseUntrusted(text), maxChars)
    + "\n" + FENCE_CLOSE
  }

  // ---- neither marker survives in the body ----

  predicate IsMarker(p: string) {
    p == FENCE_OPEN || p == FENCE_CLOSE
  }

  lemma {:induction false} OpenTextIsInert()
    ensures Inert(NEUTRAL_OPEN, FENCE_OPEN)
  {
    InertByGuard("<<", '-', "UNTRUSTED_DATA", FENCE_OPEN);
    assert "<<" + ['-'] + "UNTRUSTED_DATA" == NEUTRAL_OPEN;
  }

  lemma {:induction false} CloseTextIsInert(p: string)
    requires p != "" && |p| > 14 && '-' !in p && p[|p| - 1] !in "END" && p[0] != '>'
    ensures Inert(NEUTRAL_CLOSE, p)
  {
    InertByGuards("END", '-', "UNTRUSTED_DATA", '-', ">>", p);
    assert "END" + ['-'] + "UNTRUSTED_DATA" + ['-'] + ">>" == NEUTRAL_CLOSE;
  }

  lemma {:induction false} NeutralisedBodyIsFree(text: string, p: string)
    requires IsMarker(p)
    ensures !Occurs(NeutraliseUntrusted(text), p)
  {
    OpenTextIsInert();
    CloseTextIsInert(p);
    var first := ReplaceAll(Stripped(text), FENCE_OPEN, NEUTRAL_OPEN);
    ReplaceAllFree(Stripped(text), FENCE_OPEN, NEUTRAL_OPEN, FENCE_OPEN);
    ReplaceAllFree(first, FENCE_CLOSE, NEUTRAL_CLOSE, p);
  }

  /** A marker needs an angle bracket. */
  lemma {:induction false} FreeWithoutBrackets(s: string, p: string)
    requires IsMarker(p) && '<' !in s && '>' !in s
    ensures !Occurs(s, p)
  {
    FreeOf(s, p, if p == FENCE_OPEN then 0 else |p| - 1);
  }

  lemma {:induction false} TruncationNoteIsFree(missing: nat, p: string)
    requires IsMarker(p)
    ensures !Occurs(TruncationNote(missing), p)
  {
    var head, digits, tail := "\U{2026}[truncated: ", Decimal(missing), " more characters]";
    assert '<' !in digits && '>' !in digits;
    assert '<' !in head && '>' !in head;
    assert '<' !in tail && '>' !in tail;
    FreeWithoutBrackets(head + digits + tail, p);
  }

  lemma {:induction false} TruncateKeepsFree(text: string, maxChars: int, p: string)
    requires IsMarker(p) && !Occurs(text, p)
    ensures !Occurs(Truncate(text, maxChars), p)
  {
    if |text| > maxChars {
      var cut := SliceTo(text, maxChars);
      assert text == "" + cut + text[|cut|..];
      FreePart("", cut, text[|cut|..], p);
      TruncationNoteIsFree(|text| - maxChars, p);
      FreeLines(cut, TruncationNote(|text| - maxChars), p);
    }
  }

  lemma {:induction false} FreeLines(a: string, b: string, p: string)
    requires IsMarker(p) && !Occurs(a, p) && !Occurs(b, p)
    ensures !Occurs(a + ['\n'] + b, p)
  {
    forall i
      ensures !MatchAt(a + ['\n'] + b, p, i)
    {
      MatchAround(a, '\n', b, p, i);
    }
  }

  // ---- the fence as a whole ----

  lemma {:induction false} HeaderMarkers(safe: string, p: string, i: int)
    requires IsMarker(p) && forall k | 0 <= k < |safe| :: LabelChar(safe[k])
    ensures MatchAt(FENCE_OPEN + " name=\"" + safe + "\">", p, i) <==> p == FENCE_OPEN && i == 0
  {
    var tail := safe + ['"'] + ">";
    MatchAround(FENCE_OPEN, ' ', "name=" + ['"'] + tail, p, i);
    assert FENCE_OPEN + [' '] + ("name=" + ['"'] + tail) == FENCE_OPEN + " name=\"" + safe + "\">";
    MatchAround("name=", '"', tail, p, i - |FENCE_OPEN| - 1);
    MatchAround(safe, '"', ">", p, i - |FENCE_OPEN| - 7);
    FreeWithoutBrackets("name=", p);
    FreeWithoutBrackets(safe, p);
    assert FENCE_OPEN[0..0 + |FENCE_OPEN|] == FENCE_OPEN;
    assert |FENCE_OPEN| < |FENCE_CLOSE|;
  }

  /** The open marker stands at the start and nowhere else; the close marker at the end and
      nowhere else: for every label, every text and every cap. */
  lemma {:induction false} FenceHolds(name: Option<string>, text: string, maxChars: int, i: int)
    ensures var out := FenceUntrusted(name, text, maxChars);
      && (MatchAt(out, FENCE_OPEN, i) <==> i == 0)
      && (MatchAt(out, FENCE_CLOSE, i) <==> i == |out| - |FENCE_CLOSE|)
  {
    FenceMarker(name, text, maxChars, FENCE_OPEN, i);
    FenceMarker(name, text, maxChars, FENCE_CLOSE, i);
  }

  lemma {:induction false} FenceMarker(name: Option<string>, text: string, maxChars: int, p: string, i: int)
    requires IsMarker(p)
    ensures var out := FenceUntrusted(name, text, maxChars);
      MatchAt(out, p, i) <==> i == if p == FENCE_OPEN then 0 else |out| - |FENCE_CLOSE|
  {
    var header := FENCE_OPEN + " name=\"" + SafeLabel(name) + "\">";
    var body := Truncate(NeutraliseUntrusted(text), maxChars);
    assert FenceUntrusted(name, text, maxChars) == header + ['\n'] + (body + ['\n'] + FENCE_CLOSE);
    HeaderMarkers(SafeLabel(name), p, i);
    NeutralisedBodyIsFree(text, p);
    TruncateKeepsFree(NeutraliseUntrusted(text), maxChars, p);
    ThreeLines(header, body, p, i);
  }

  lemma {:induction false} ThreeLines(header: string, body: string, p: string, i: int)
    requires IsMarker(p) && !Occurs(body, p)
    requires MatchAt(header, p, i) <==> p == FENCE_OPEN && i == 0
    ensures MatchAt(header + ['\n'] + (body + ['\n'] + FENCE_CLOSE), p, i)
      <==> i == if p == FENCE_OPEN then 0 else |header| + |body| + 2
  {
    var j := i - |header| - 1;
    MatchAround(header, '\n', body + ['\n'] + FENCE_CLOSE, p, i);
    MatchAround(body, '\n', FENCE_CLOSE, p, j);
    CloseMarkerAlone(p, j - |body| - 1);
  }

  lemma {:induction false} CloseMarkerAlone(p: string, i: int)
    requires IsMarker(p)
    ensures MatchAt(FENCE_CLOSE, p, i) <==> p == FENCE_CLOSE && i == 0
  {
    assert FENCE_CLOSE[0..0 + |FENCE_CLOSE|] == FENCE_CLOSE;
    if MatchAt(FENCE_CLOSE, p, i) {
      MatchChars(FENCE_CLOSE, p, i);
      assert '<' !in FENCE_CLOSE && FENCE_CLOSE[i] == p[0];
    }
  }

  /** Text that holds no marker and no control character reaches the model unchanged. */
  lemma {:induction false} NeutraliseUntouched(text: string)
    requires !Occurs(text, FENCE_OPEN) && !Occurs(text, FENCE_CLOSE)
    requires forall i | 0 <= i < |text| :: Keeps(text[i])
    ensures NeutraliseUntrusted(text) == text
  {
    assert Stripped(text) == text;
    ReplaceAllNone(text, FENCE_OPEN, NEUTRAL_OPEN);
    ReplaceAllNone(text, FENCE_CLOSE, NEUTRAL_CLOSE);
  }

  // ---- the message list ----

  datatype Role = System | User | Assistant
  datatype Message = Message(role: Role, content: string)
  datatype Trust = Trusted | Untrusted
  datatype Section = Section(name: string, trust: Trust, text: string)
  datatype BuiltContext = BuiltContext(messages: seq<Message>, proposalsAllowed: bool, untrustedSectionCount: nat)

  function WithTrust(sections: seq<Section>, trust: Trust): (r: seq<Section>)
    ensures forall s :: s in r <==> s in sections && s.trust == trust
    ensures |r| <= |sections|
  {
    if sections == [] then []
    else (if sections[0].trust == trust then [sections[0]] else []) + WithTrust(sections[1..], trust)
  }

  function Spoken(history: seq<Message>): (r: seq<Message>)
    ensures forall m | m in r :: m in history && m.role != System
  {
    var keep := (m: Message) => m.role != System;
    FilterKeeps(history, keep);
    Filter(history, keep)
  }

  /** At most the twelve newest turns, none of them a system message, each one capped. */
  function TrimmedHistory(history: seq<Message>): (r: seq<Message>)
    ensures |r| <= MAX_HISTORY_MESSAGES && forall i | 0 <= i < |r| :: r[i].role != System
  {
    var spoken := Spoken(history);
    var kept := if |spoken| > MAX_HISTORY_MESSAGES then spoken[|spoken| - MAX_HISTORY_MESSAGES..] else spoken;
    seq(|kept|, i requires 0 <= i < |kept| => Message(kept[i].role, Truncate(kept[i].content, MAX_MESSAGE_CHARS)))
  }

  function Summaries(sections: seq<Section>): seq<string> {
    seq(|sections|, i requires 0 <= i < |sections| =>
      "[system-composed summary: " + sections[i].name + "]\n" + Truncate(sections[i].text, MAX_UNTRUSTED_CHARS))
  }

  function Fences(sections: seq<Section>): seq<string> {
    seq(|sections|, i requires 0 <= i < |sections| =>
      FenceUntrusted(Some(sections[i].name), sections[i].text, MAX_UNTRUSTED_CHARS))
  }

  /** `preamble` is the fixed lines that introduce the data blocks. */
  function DataMessage(preamble: seq<string>, sections: seq<Section>): string {
    Join(preamble + Fences(sections), "\n")
  }

  function TrustedBlock(trusted: seq<Section>): seq<Message> {
    if trusted == [] then [] else [Message(User, Join(Summaries(trusted), "\n\n"))]
  }

  function UntrustedBlock(preamble: seq<string>, untrusted: seq<Section>): seq<Message> {
    if untrusted == [] then [] else [Message(User, DataMessage(preamble, untrusted))]
  }

  function Layout(systemPrompt: string, preamble: seq<string>, history: seq<Message>,
                  question: string, sections: seq<Section>): seq<Message>
  {
    [Message(System, systemPrompt)]
    + TrustedBlock(WithTrust(sections, Trusted))
    + UntrustedBlock(preamble, WithTrust(sections, Untrusted))
    + TrimmedHistory(history)
    + [Message(User, Truncate(question, MAX_MESSAGE_CHARS))]
  }

  method BuildMessages(systemPrompt: string, preamble: seq<string>, history: seq<Message>,
                       question: string, sections: seq<Section>) returns (built: BuiltContext)
    ensures built.messages == Layout(systemPrompt, preamble, history, question, sections)
    ensures built.proposalsAllowed <==> forall s | s in sections :: s.trust == Trusted
    ensures built.untrustedSectionCount == |WithTrust(sections, Untrusted)|
  {
    var trimmedHistory := TrimmedHistory(history);
    var untrusted := WithTrust(sections, Untrusted);
    var trusted := WithTrust(sections, Trusted);
    var messages := [Message(System, systemPrompt)];
    if |trusted| > 0 {
      messages := messages + [Message(User, Join(Summaries(trusted), "\n\n"))];
    }
    assert messages == [Message(System, systemPrompt)] + TrustedBlock(trusted);
    if |untrusted| > 0 {
      messages := messages + [Message(User, DataMessage(preamble, untrusted))];
    }
    assert messages == [Message(System, systemPrompt)] + TrustedBlock(trusted) + UntrustedBlock(preamble, untrusted);
    messages := messages + trimmedHistory;
    messages := messages + [Message(User, Truncate(question, MAX_MESSAGE_CHARS))];
    built := BuiltContext(messages, |untrusted| == 0, |untrusted|);
    assert forall s | s in sections :: s.trust == Untrusted ==> s in untrusted;
    assert |untrusted| > 0 ==> untrusted[0] in untrusted;
  }

  /** The system prompt comes first, whole, and is the only system message, whatever the history,
      the sections and the question say. */
  lemma {:induction false} OneSystemMessage(systemPrompt: string, preamble: seq<string>, history: seq<Message>,
                         question: string, sections: seq<Section>)
    ensures var ms := Layout(systemPrompt, preamble, history, question, sections);
      && |ms| <= MAX_HISTORY_MESSAGES + 4
      && ms[0] == Message(System, systemPrompt)
      && forall m | m in ms[1..] :: m.role != System
  {
    RolesApart(Message(System, systemPrompt), TrustedBlock(WithTrust(sections, Trusted)),
               UntrustedBlock(preamble, WithTrust(sections, Untrusted)), TrimmedHistory(history),
               [Message(User, Truncate(question, MAX_MESSAGE_CHARS))]);
  }

  predicate NoSystem(ms: seq<Message>) {
    forall m | m in ms :: m.role != System
  }

  lemma {:induction false} RolesApart(head: Message, a: seq<Message>, b: seq<Message>, c: seq<Message>, d: seq<Message>)
    requires NoSystem(a) && NoSystem(b) && NoSystem(c) && NoSystem(d)
    ensures var ms := [head] + a + b + c + d; ms[0] == head && NoSystem(ms[1..])
  {
    var ms := [head] + a + b + c + d;
    assert ms[1..] == a + b + c + d;
    forall m: Message | m in a + b + c + d
      ensures m.role != System
    {
      assert m in a || m in b || m in c || m in d;
    }
  }

  // ---- the data message holds one pair of markers for each untrusted section ----

  lemma {:induction false} FenceCountsOnce(name: Option<string>, text: string, maxChars: int, p: string)
    requires IsMarker(p)
    ensures Count(FenceUntrusted(name, text, maxChars), p) == 1
  {
    var out := FenceUntrusted(name, text, maxChars);
    forall i
      ensures MatchAt(out, p, i) <==> i == if p == FENCE_OPEN then 0 else |out| - |FENCE_CLOSE|
    {
      FenceMarker(name, text, maxChars, p, i);
    }
    CountOnce(out, p, if p == FENCE_OPEN then 0 else |out| - |FENCE_CLOSE|);
  }

  lemma {:induction false} JoinCounts(clean: seq<string>, fenced: seq<string>, p: string)
    requires p != "" && '\n' !in p
    requires forall k | 0 <= k < |clean| :: !Occurs(clean[k], p)
    requires forall k | 0 <= k < |fenced| :: Count(fenced[k], p) == 1
    ensures Count(Join(clean + fenced, "\n"), p) == |fenced|
    decreases |clean| + |fenced|
  {
    var parts := clean + fenced;
    if |parts| > 0 {
      var rest := Join(parts[1..], "\n");
      if clean != [] {
        CountFree(clean[0], p);
        JoinCounts(clean[1..], fenced, p);
        assert parts[1..] == clean[1..] + fenced;
      } else {
        JoinCounts([], fenced[1..], p);
        assert parts[1..] == [] + fenced[1..];
      }
      CountAround(parts[0], '\n', rest, p);
      assert |parts| > 1 ==> Join(parts, "\n") == parts[0] + ['\n'] + rest;
    }
  }

  /** No section can open or close a fence that is not its own. */
  lemma {:induction false} DataMessageMarkers(preamble: seq<string>, sections: seq<Section>, p: string)
    requires IsMarker(p) && forall k | 0 <= k < |preamble| :: !Occurs(preamble[k], p)
    ensures Count(DataMessage(preamble, sections), p) == |sections|
  {
    var fenced := Fences(sections);
    forall k | 0 <= k < |fenced|
      ensures Count(fenced[k], p) == 1
    {
      FenceCountsOnce(Some(sections[k].name), sections[k].text, MAX_UNTRUSTED_CHARS, p);
    }
    JoinCounts(preamble, fenced, p);
  }
}
