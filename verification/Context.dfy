/** The context that is sent along, said without the functions that compose it. */
module Context {
  import opened Text
  import opened Lists
  import opened Prompt

  // ---- capping and neutralising ----

  /** A text of at most `max` characters as it is; of a longer one the first `max`, counted from the back where max is
      negative, and how far it was over. */
  ghost predicate Capped(text: string, max: int, capped: string) {
    if |text| <= max then capped == text
    else
      exists n: nat, digits | Keeps(|text|, max, n) && Numeral(digits, |text| - max) && digits != "" && digits[0] != '0' ::
        capped == text[..n] + "\n\U{2026}[truncated: " + digits + " more characters]"
  }

  ghost predicate Keeps(length: nat, max: int, n: nat) {
    n <= length && (if 0 <= max then n == max else if 0 <= length + max then n == length + max else n == 0)
  }

  lemma {:induction false} TruncateCaps(text: string, max: int)
    ensures Capped(text, max, Truncate(text, max))
  {
    if |text| > max {
      DecimalIsNumeral(|text| - max);
      var n := SliceToKeeps(text, max);
      NoteIs(text[..n], |text| - max, Decimal(|text| - max));
    }
  }

  lemma {:induction false} SliceToKeeps(text: string, max: int) returns (n: nat)
    requires |text| > max
    ensures Keeps(|text|, max, n) && SliceTo(text, max) == text[..n]
  {
    n := if 0 <= max then max else if 0 <= |text| + max then |text| + max else 0;
  }

  lemma {:induction false} NoteIs(kept: string, missing: nat, digits: string)
    requires digits == Decimal(missing)
    ensures kept + "\n" + TruncationNote(missing) == kept + "\n\U{2026}[truncated: " + digits + " more characters]"
  {
  }

  /** Control characters other than tab, line feed and carriage return. */
  ghost predicate IsControl(c: char) {
    c as int !in {0x9, 0xA, 0xD} && (c as int < 0x20 || 0x7F <= c as int <= 0x9F)
  }

  lemma {:induction false} EqualLengthReplace(s: string, p: string, r: string)
    requires p != "" && |r| == |p|
    ensures |ReplaceAll(s, p, r)| == |s|
    ensures forall i | 0 <= i < |s| ::
      ReplaceAll(s, p, r)[i] == s[i] || exists k | 0 <= k < |p| :: s[i] == p[k] && r[k] != p[k] && ReplaceAll(s, p, r)[i] == r[k]
    decreases |s|
  {
    var at := IndexOf(s, p);
    IndexOfIsFirst(s, p);
    if at == -1 {
      ReplaceAllNone(s, p, r);
    } else {
      var rest := s[at + |p|..];
      EqualLengthReplace(rest, p, r);
      var replaced := ReplaceAll(rest, p, r);
      SplitFound(s, p, at);
      assert ReplaceAll(s, p, r) == s[..at] + r + replaced;
      MatchChars(s, p, at);
      forall i | 0 <= i < |s|
        ensures ReplaceAll(s, p, r)[i] == s[i]
                || exists k | 0 <= k < |p| :: s[i] == p[k] && r[k] != p[k] && ReplaceAll(s, p, r)[i] == r[k]
      {
        if at <= i < at + |p| {
          assert s[i] == p[i - at] && ReplaceAll(s, p, r)[i] == r[i - at];
        } else if i >= at + |p| {
          assert s[i] == rest[i - at - |p|] && ReplaceAll(s, p, r)[i] == replaced[i - at - |p|];
        }
      }
    }
  }

  /** Neutralising keeps every character in its place, but for control characters, which become spaces, and characters
      of a marker, of which some become hyphens. */
  lemma {:induction false} NeutralisingChangesLittle(text: string, i: nat)
    requires i < |text|
    ensures var out := NeutraliseUntrusted(text);
      && |out| == |text|
      && (out[i] == text[i] || (IsControl(text[i]) && out[i] == ' ') || (text[i] in {'<', '_', '>'} && out[i] == '-'))
      && (IsControl(text[i]) ==> out[i] == ' ')
  {
    var stripped := Stripped(text);
    var first := ReplaceAll(stripped, FENCE_OPEN, NEUTRAL_OPEN);
    EqualLengthReplace(stripped, FENCE_OPEN, NEUTRAL_OPEN);
    EqualLengthReplace(first, FENCE_CLOSE, NEUTRAL_CLOSE);
    assert forall k | 0 <= k < |FENCE_OPEN| && NEUTRAL_OPEN[k] != FENCE_OPEN[k] :: FENCE_OPEN[k] == '<' && NEUTRAL_OPEN[k] == '-';
    assert forall k | 0 <= k < |FENCE_CLOSE| && NEUTRAL_CLOSE[k] != FENCE_CLOSE[k] ::
      FENCE_CLOSE[k] in {'_', '>'} && NEUTRAL_CLOSE[k] == '-';
    assert IsControl(text[i]) ==> stripped[i] == ' ';
  }

  // ---- the history that goes along ----

  /** at are the places, in order, of the turns of the conversation that are not system messages. */
  ghost predicate SpokenAt(history: seq<Message>, at: seq<nat>) {
    && (forall k, l | 0 <= k < l < |at| :: at[k] < at[l])
    && (forall k | 0 <= k < |at| :: at[k] < |history| && history[at[k]].role != System)
    && forall i: nat | i < |history| && history[i].role != System :: i in at
  }

  /** The history that goes along: the newest twelve turns, or all when there are no more, in their order, each one
      capped at 4000 characters and none of them a system message. */
  lemma {:induction false} HistoryIsNewest(history: seq<Message>) returns (at: seq<nat>)
    ensures SpokenAt(history, at)
    ensures var kept := TrimmedHistory(history);
      && |kept| == (if |at| <= 12 then |at| else 12)
      && forall k | 0 <= k < |kept| :: IsTurn(history[at[|at| - |kept| + k]], kept[k])
  {
    var keep := (m: Message) => m.role != System;
    at := FilterPlaces(history, keep);
    NewestTurns(history, Spoken(history), at);
  }

  ghost predicate IsTurn(turn: Message, sent: Message) {
    sent.role == turn.role && Capped(turn.content, 4000, sent.content)
  }

  lemma {:induction false} NewestTurns(history: seq<Message>, spoken: seq<Message>, at: seq<nat>)
    requires spoken == Spoken(history) && |at| == |spoken|
    requires forall k | 0 <= k < |at| :: at[k] < |history| && spoken[k] == history[at[k]]
    ensures var kept := TrimmedHistory(history);
      && |kept| == (if |at| <= 12 then |at| else 12)
      && forall k | 0 <= k < |kept| :: IsTurn(history[at[|at| - |kept| + k]], kept[k])
  {
    var kept := TrimmedHistory(history);
    forall k | 0 <= k < |kept|
      ensures IsTurn(history[at[|at| - |kept| + k]], kept[k])
    {
      TruncateCaps(spoken[|at| - |kept| + k].content, MAX_MESSAGE_CHARS);
    }
  }

  // ---- the layout ----

  /** The messages of the context: the system prompt; the summaries of our own sections and the fenced sections of
      others, each in one message where there are any; the newest turns; and the question, capped. */
  lemma {:induction false} ContextIsLaidOut(systemPrompt: string, preamble: seq<string>, history: seq<Message>,
                                            question: string, sections: seq<Section>)
    ensures var ms, turns := Layout(systemPrompt, preamble, history, question, sections), TrimmedHistory(history);
      var ours, others := exists s :: s in sections && s.trust == Trusted, exists s :: s in sections && s.trust == Untrusted;
      var n := 1 + (if ours then 1 else 0) + (if others then 1 else 0);
      && |ms| == n + |turns| + 1
      && ms[0] == Message(System, systemPrompt)
      && (ours ==> ms[1] == Message(User, Join(Summaries(WithTrust(sections, Trusted)), "\n\n")))
      && (others ==> ms[n - 1] == Message(User, DataMessage(preamble, WithTrust(sections, Untrusted))))
      && ms[n..n + |turns|] == turns
      && ms[|ms| - 1].role == User && Capped(question, 4000, ms[|ms| - 1].content)
  {
    TruncateCaps(question, 4000);
    var t, u := WithTrust(sections, Trusted), WithTrust(sections, Untrusted);
    assert t != [] ==> t[0] in t;
    assert u != [] ==> u[0] in u;
    FiveParts(Message(System, systemPrompt), TrustedBlock(t), UntrustedBlock(preamble, u), TrimmedHistory(history),
              Message(User, Truncate(question, MAX_MESSAGE_CHARS)), Layout(systemPrompt, preamble, history, question, sections));
  }

  lemma {:induction false} FiveParts(head: Message, a: seq<Message>, b: seq<Message>, c: seq<Message>, last: Message, ms: seq<Message>)
    requires ms == [head] + a + b + c + [last] && |a| <= 1 && |b| <= 1
    ensures |ms| == 1 + |a| + |b| + |c| + 1 && ms[0] == head && ms[|ms| - 1] == last
    ensures a != [] ==> ms[1] == a[0]
    ensures b != [] ==> ms[|a| + |b|] == b[0]
    ensures ms[1 + |a| + |b|..1 + |a| + |b| + |c|] == c
  {
  }

  /** Each of our own sections is introduced by name and capped at 2000 characters. */
  lemma {:induction false} SummariesSay(sections: seq<Section>, k: nat)
    requires k < |sections|
    ensures |Summaries(sections)| == |sections|
    ensures exists text | Capped(sections[k].text, 2000, text) ::
      Summaries(sections)[k] == "[system-composed summary: " + sections[k].name + "]\n" + text
  {
    TruncateCaps(sections[k].text, 2000);
  }

  /** A label keeps its letters, digits, underscores, full stops and hyphens, up to sixty characters; any other becomes an
      underscore, and without a label it is `data`. */
  ghost predicate Labels(name: Option<string>, tag: string) {
    var raw := if name.Some? then name.value else "data";
    && |tag| == (if |raw| <= 60 then |raw| else 60)
    && forall i | 0 <= i < |tag| ::
         tag[i] == if IsPlain(raw[i]) then raw[i] else '_'
  }

  ghost predicate IsPlain(c: char) {
    'A' <= c <= 'Z' || 'a' <= c <= 'z' || '0' <= c <= '9' || c in {'_', '.', '-'}
  }

  lemma {:induction false} SafeLabelLabels(name: Option<string>)
    ensures Labels(name, SafeLabel(name))
  {
    var raw := if name.Some? then name.value else "data";
    var marked := seq(|raw|, i requires 0 <= i < |raw| => if LabelChar(raw[i]) then raw[i] else '_');
    assert SafeLabel(name) == SliceTo(marked, 60);
    assert forall i | 0 <= i < |raw| :: marked[i] == if IsPlain(raw[i]) then raw[i] else '_';
  }

  /** A section of others stands inside one fence, under its label, neutralised and capped at 2000 characters. */
  ghost predicate FencedAs(section: Section, fence: string) {
    exists tag, body | Labels(Some(section.name), tag) && Capped(NeutraliseUntrusted(section.text), 2000, body) ::
      fence == "<<<UNTRUSTED_DATA name=\"" + tag + "\">\n" + body + "\nEND_UNTRUSTED_DATA>>>"
  }

  /** The message with the sections of others: the lines that introduce them, then their fences, in order. */
  lemma {:induction false} DataMessageSays(preamble: seq<string>, sections: seq<Section>) returns (fences: seq<string>)
    ensures DataMessage(preamble, sections) == Join(preamble + fences, "\n")
    ensures |fences| == |sections| && forall k | 0 <= k < |fences| :: FencedAs(sections[k], fences[k])
  {
    fences := Fences(sections);
    forall k | 0 <= k < |fences|
      ensures FencedAs(sections[k], fences[k])
    {
      FenceIs(sections[k], SafeLabel(Some(sections[k].name)), Truncate(NeutraliseUntrusted(sections[k].text), 2000), fences[k]);
    }
  }

  lemma {:induction false} FenceIs(section: Section, tag: string, body: string, fence: string)
    requires tag == SafeLabel(Some(section.name)) && body == Truncate(NeutraliseUntrusted(section.text), 2000)
    requires fence == FenceUntrusted(Some(section.name), section.text, MAX_UNTRUSTED_CHARS)
    ensures FencedAs(section, fence)
  {
    SafeLabelLabels(Some(section.name));
    TruncateCaps(NeutraliseUntrusted(section.text), 2000);
    FenceText(tag, body);
  }

  lemma {:induction false} FenceText(tag: string, body: string)
    ensures FENCE_OPEN + " name=\"" + tag + "\">\n" + body + "\n" + FENCE_CLOSE
            == "<<<UNTRUSTED_DATA name=\"" + tag + "\">\n" + body + "\nEND_UNTRUSTED_DATA>>>"
  {
    assert FENCE_OPEN + " name=\"" == "<<<UNTRUSTED_DATA name=\"" && "\n" + FENCE_CLOSE == "\nEND_UNTRUSTED_DATA>>>";
  }
}
