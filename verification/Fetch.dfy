/** The one place a connector reaches the network: guarded hops and a bounded body. */
module Fetch {
  import opened Text
  import opened UrlGuard

  const MAX_REDIRECT_HOPS := 3

  datatype Failure =
    | BlockedUrl | BlockedRedirect | MissingLocation | RedirectBudgetSpent | Network | Timeout | InvalidResponse
    | ResponseTooLarge

  /** How a body ends after the chunks that arrived: completely, with an error, or with the request's time used up. */
  datatype BodyEnd = Complete | Breaks | TimesOut

  /** What comes back: an error instead of a response, nothing in time, or a response. */
  datatype Reply =
    | NoReply
    | TooLate
    | Reply(status: nat, location: Option<string>, contentLength: Option<nat>, chunks: seq<seq<nat>>, end: BodyEnd)

  /** A request as it left: where to, and whether it carried the credential. */
  datatype Sent = Sent(url: Url, authorised: bool)

  datatype Answer = Answer(status: nat, body: seq<nat>, finalUrl: Url, redirects: nat)

  // ---- the bounded body ----

  function Flatten(chunks: seq<seq<nat>>): seq<nat> {
    if chunks == [] then [] else Flatten(chunks[..|chunks| - 1]) + chunks[|chunks| - 1]
  }

  lemma {:induction false} FlattenGrows(chunks: seq<seq<nat>>, n: nat)
    requires n <= |chunks|
    ensures |Flatten(chunks[..n])| <= |Flatten(chunks)|
    decreases |chunks| - n
  {
    if n < |chunks| {
      assert chunks[..n + 1][..n] == chunks[..n];
      FlattenGrows(chunks, n + 1);
    } else {
      assert chunks[..n] == chunks;
    }
  }

  /** The bytes of all chunks, in the order in which they came. */
  lemma {:induction false} FlattenKeepsOrder(chunks: seq<seq<nat>>, more: seq<seq<nat>>, chunk: seq<nat>)
    ensures Flatten([]) == [] && Flatten([chunk]) == chunk && Flatten(chunks + more) == Flatten(chunks) + Flatten(more)
  {
    assert [chunk][..0] == [];
    if more == [] {
      assert chunks + more == chunks;
    } else {
      var n := |more| - 1;
      FlattenKeepsOrder(chunks, more[..n], chunk);
      assert (chunks + more)[..|chunks| + n] == chunks + more[..n];
      assert (chunks + more)[|chunks| + n] == more[n];
    }
  }

  /** The declared or the real size is over the cap. */
  predicate Oversized(contentLength: Option<nat>, body: seq<seq<nat>>, maxBytes: nat) {
    (contentLength.Some? && contentLength.value > maxBytes) || |Flatten(body)| > maxBytes
  }

  /** The chunks one after another in one buffer. */
  method Merge(chunks: seq<seq<nat>>, total: nat) returns (all: seq<nat>)
    requires total == |Flatten(chunks)|
    ensures all == Flatten(chunks)
  {
    var merged := new nat[total];
    var offset := 0;
    for i := 0 to |chunks|
      invariant offset == |Flatten(chunks[..i])| <= merged.Length && merged[..offset] == Flatten(chunks[..i])
    {
      assert chunks[..i + 1][..i] == chunks[..i];
      FlattenGrows(chunks, i + 1);
      ghost var before := merged[..offset];
      forall k | 0 <= k < |chunks[i]| {
        merged[offset + k] := chunks[i][k];
      }
      assert merged[..offset] == before;
      ghost var added := merged[offset..offset + |chunks[i]|];
      assert forall k | 0 <= k < |chunks[i]| :: added[k] == chunks[i][k];
      assert added == chunks[i];
      assert merged[..offset + |chunks[i]|] == before + added;
      offset := offset + |chunks[i]|;
    }
    assert chunks[..|chunks|] == chunks;
    assert merged[..] == merged[..offset];
    all := merged[..];
  }

  /** What a reading of the body gives: the size counts first, then whether the body came to its end. */
  function BodyRead(contentLength: Option<nat>, body: seq<seq<nat>>, end: BodyEnd, maxBytes: nat): Result<seq<nat>, Failure> {
    if Oversized(contentLength, body, maxBytes) then Err(ResponseTooLarge)
    else
      match end
      case Complete => Ok(Flatten(body))
      case Breaks => Err(InvalidResponse)
      case TimesOut => Err(Timeout)
  }

  /** The whole body when it came to its end and neither the declared nor the real size is over the cap, else a refusal:
      never a truncated body. */
  method ReadBounded(contentLength: Option<nat>, body: seq<seq<nat>>, end: BodyEnd, maxBytes: nat)
    returns (r: Result<seq<nat>, Failure>)
    ensures r == BodyRead(contentLength, body, end, maxBytes)
    ensures var over := (contentLength.Some? && contentLength.value > maxBytes) || |Flatten(body)| > maxBytes;
      && (r == Err(ResponseTooLarge) <==> over)
      && (r == Err(InvalidResponse) <==> !over && end == Breaks)
      && (r == Err(Timeout) <==> !over && end == TimesOut)
      && (r.Ok? <==> !over && end == Complete)
      && (r.Ok? ==> r.value == Flatten(body))
  {
    if contentLength.Some? && contentLength.value > maxBytes { return Err(ResponseTooLarge); }
    var chunks: seq<seq<nat>> := [];
    var total := 0;
    for i := 0 to |body|
      invariant chunks == body[..i] && total == |Flatten(body[..i])| <= maxBytes
    {
      assert body[..i + 1][..i] == body[..i];
      total := total + |body[i]|;
      if total > maxBytes {
        FlattenGrows(body, i + 1);
        return Err(ResponseTooLarge);
      }
      chunks := chunks + [body[i]];
    }
    assert body[..|body|] == body;
    if end.Breaks? { return Err(InvalidResponse); }
    if end.TimesOut? { return Err(Timeout); }
    var merged := Merge(chunks, total);
    r := Ok(merged);
  }

  // ---- hops ----

  predicate IsRedirect(status: nat) {
    status == 301 || status == 302 || status == 303 || status == 307 || status == 308
  }

  function Origin(url: Url): (string, string, nat) {
    (url.protocol, url.hostname, if url.port.None? then 443 else url.port.value)
  }

  predicate HasLocation(reply: Reply) {
    reply.Reply? && reply.location.Some? && Trim(reply.location.value) != ""
  }

  /** A redirect status: 301, 302, 303, 307 or 308. */
  ghost predicate Redirecting(status: nat) {
    status in {301, 302, 303, 307, 308}
  }

  /** The reply carries a location that is not blank. */
  ghost predicate Points(reply: Reply, location: string) {
    reply.Reply? && reply.location == Some(location) && Visible(location)
  }

  /** The same protocol, the same host name and the same port, 443 where none is written. */
  ghost predicate SameOrigin(a: Url, b: Url) {
    && a.protocol == b.protocol && a.hostname == b.hostname
    && (a.port == b.port || (a.port in {None, Some(443)} && b.port in {None, Some(443)}))
  }

  lemma {:induction false} OriginsAgree(a: Url, b: Url)
    ensures Origin(a) == Origin(b) <==> SameOrigin(a, b)
  {
  }

  lemma {:induction false} LocationPoints(reply: Reply, location: string)
    requires reply.Reply? && reply.location == Some(location)
    ensures HasLocation(reply) <==> Points(reply, location)
  {
    VisibleIsTrimmed(location);
  }

  /** The answer to `from` sends the client to `to`. */
  ghost predicate RedirectsTo(reply: Reply, resolve: (Url, string) -> Option<Url>, from: Url, to: Url) {
    && reply.Reply? && Redirecting(reply.status)
    && exists location :: Points(reply, location) && resolve(from, location) == Some(to)
  }

  /** Why the next request goes to `current`: it is the one asked for, or the last answer redirected there. */
  ghost predicate Justified(server: (nat, Sent) -> Reply, resolve: (Url, string) -> Option<Url>,
                            request: Url, sent: seq<Sent>, current: Url) {
    if sent == [] then current == request
    else
      var last := |sent| - 1;
      RedirectsTo(server(last, sent[last]), resolve, sent[last].url, current)
  }

  /** Every request on the wire passed the guard, went where the caller or the previous answer pointed,
      and carried the credential only to the origin the caller named. */
  ghost predicate Logged(guard: Url -> bool, server: (nat, Sent) -> Reply, resolve: (Url, string) -> Option<Url>,
                         request: Url, credential: bool, sent: seq<Sent>) {
    forall i | 0 <= i < |sent| :: LoggedAt(guard, server, resolve, request, credential, sent, i)
  }

  ghost predicate LoggedAt(guard: Url -> bool, server: (nat, Sent) -> Reply, resolve: (Url, string) -> Option<Url>,
                           request: Url, credential: bool, sent: seq<Sent>, i: nat)
    requires i < |sent|
  {
    && guard(sent[i].url)
    && Justified(server, resolve, request, sent[..i], sent[i].url)
    && (sent[i].authorised <==> credential && (i == 0 || SameOrigin(sent[i].url, request)))
  }

  lemma {:induction false} LogGrows(guard: Url -> bool, server: (nat, Sent) -> Reply, resolve: (Url, string) -> Option<Url>,
                 request: Url, credential: bool, sent: seq<Sent>, step: Sent)
    requires Logged(guard, server, resolve, request, credential, sent)
    requires guard(step.url) && Justified(server, resolve, request, sent, step.url)
    requires step.authorised <==> credential && (sent == [] || SameOrigin(step.url, request))
    ensures Logged(guard, server, resolve, request, credential, sent + [step])
  {
    var longer := sent + [step];
    forall i | 0 <= i < |longer|
      ensures LoggedAt(guard, server, resolve, request, credential, longer, i)
    {
      assert longer[..i] == sent[..i];
      if i == |sent| {
        assert sent[..i] == sent;
      } else {
        assert LoggedAt(guard, server, resolve, request, credential, sent, i);
      }
    }
  }

  /** A reply that is no redirect: served whole, or refused as its body could not be read whole. */
  function Served(reply: Reply, maxBytes: nat, current: Url, redirects: nat): Result<Answer, Failure>
    requires reply.Reply?
  {
    var body := BodyRead(reply.contentLength, reply.chunks, reply.end, maxBytes);
    if body.Err? then Err(body.error) else Ok(Answer(reply.status, body.value, current, redirects))
  }

  /** How a fetch ends on the reply to its last request: nothing came, or not in time, it is served whole or not at all, or
      it is a redirect that leads nowhere, one too many, or one that the guard refuses. */
  ghost predicate EndsWith(guard: Url -> bool, resolve: (Url, string) -> Option<Url>, reply: Reply, current: Url, redirects: nat,
                           maxBytes: nat, r: Result<Answer, Failure>) {
    if reply.NoReply? then r == Err(Network)
    else if reply.TooLate? then r == Err(Timeout)
    else if !Redirecting(reply.status) then r == Served(reply, maxBytes, current, redirects)
    else if forall location :: !Points(reply, location) then r == Err(MissingLocation)
    else if redirects == 3 then r == Err(RedirectBudgetSpent)
    else
      && r == Err(BlockedRedirect)
      && exists location :: Points(reply, location)
                            && var next := resolve(current, location); next.None? || !guard(next.value)
  }

  /** The result is what the reply to the last request says; without a request it is the guard's refusal. */
  ghost predicate Concludes(guard: Url -> bool, resolve: (Url, string) -> Option<Url>, server: (nat, Sent) -> Reply,
                            sent: seq<Sent>, maxBytes: nat, r: Result<Answer, Failure>) {
    if sent == [] then r == Err(BlockedUrl)
    else
      var last := |sent| - 1;
      EndsWith(guard, resolve, server(last, sent[last]), sent[last].url, last, maxBytes, r)
  }

  method Finish(reply: Reply, maxBytes: nat, current: Url, redirects: nat) returns (r: Result<Answer, Failure>)
    requires reply.Reply?
    ensures r == Served(reply, maxBytes, current, redirects)
  {
    var body := ReadBounded(reply.contentLength, reply.chunks, reply.end, maxBytes);
    r := if body.Err? then Err(body.error) else Ok(Answer(reply.status, body.value, current, redirects));
  }

  /** The redirect loop over any guard. `server` is any peer, free to answer each request as it likes;
      `resolve` is the platform's relative URL resolution. */
  method Follow(guard: Url -> bool, resolve: (Url, string) -> Option<Url>, server: (nat, Sent) -> Reply,
                request: Url, credential: bool, maxBytes: nat)
    returns (r: Result<Answer, Failure>, sent: seq<Sent>)
    ensures |sent| <= 4
    ensures Logged(guard, server, resolve, request, credential, sent)
    ensures sent == [] <==> !guard(request)
    ensures Concludes(guard, resolve, server, sent, maxBytes, r)
  {
    sent := [];
    if !guard(request) { return Err(BlockedUrl), sent; }
    var current := request;
    var redirects := 0;
    while true
      invariant redirects == |sent| <= MAX_REDIRECT_HOPS
      invariant guard(request) && guard(current) && Justified(server, resolve, request, sent, current)
      invariant Logged(guard, server, resolve, request, credential, sent)
      decreases MAX_REDIRECT_HOPS - redirects
    {
      var authorised := credential && !(redirects > 0 && Origin(current) != Origin(request));
      var step := Sent(current, authorised);
      var reply := server(redirects, step);
      OriginsAgree(current, request);
      LogGrows(guard, server, resolve, request, credential, sent, step);
      sent := sent + [step];
      if reply.NoReply? { return Err(Network), sent; }
      if reply.TooLate? { return Err(Timeout), sent; }
      if !IsRedirect(reply.status) {
        r := Finish(reply, maxBytes, current, redirects);
        return;
      }
      if reply.location.Some? { LocationPoints(reply, reply.location.value); }
      if !HasLocation(reply) { return Err(MissingLocation), sent; }
      redirects := redirects + 1;
      if redirects > MAX_REDIRECT_HOPS { return Err(RedirectBudgetSpent), sent; }
      var next := resolve(current, reply.location.value);
      if next.None? || !guard(next.value) { return Err(BlockedRedirect), sent; }
      current := next.value;
    }
  }

  /** The connectors' guard. */
  function Guard(lower: string -> string): Url -> bool {
    (u: Url) => CheckUrl(lower, u, CONNECTOR_OPTIONS).Ok?
  }

  /** An answer that is delivered: the last reply's status, which redirects nowhere, its whole body within the cap, where
      it came from, and after how many redirects. */
  ghost predicate Delivers(reply: Reply, maxBytes: nat, sent: seq<Sent>, answer: Answer)
    requires sent != []
  {
    && reply.Reply? && reply.end == Complete && !Redirecting(reply.status)
    && answer.status == reply.status && answer.body == Flatten(reply.chunks) && |answer.body| <= maxBytes
    && (reply.contentLength.Some? ==> reply.contentLength.value <= maxBytes)
    && answer.finalUrl == sent[|sent| - 1].url && answer.redirects == |sent| - 1
  }

  /** For every peer and every chain of redirects: at most four requests, each over https to port 443 of one
      of the three listed names, the credential only ever to the origin first asked for. */
  method GuardedFetch(lower: string -> string, resolve: (Url, string) -> Option<Url>, server: (nat, Sent) -> Reply,
                      request: Url, credential: bool, maxBytes: nat)
    returns (r: Result<Answer, Failure>, sent: seq<Sent>)
    requires forall h | h in CONNECTOR_OPTIONS.allowedHosts :: lower(h) == h
    ensures |sent| <= 4
    ensures forall i | 0 <= i < |sent| :: Safe443(lower, sent[i].url)
    ensures forall i | 0 <= i < |sent| ::
      sent[i].authorised <==> credential && (i == 0 || SameOrigin(sent[i].url, request))
    ensures forall i | 0 <= i < |sent| :: Justified(server, resolve, request, sent[..i], sent[i].url)
    ensures sent == [] <==> !Safe443(lower, request)
    ensures r.Ok? ==> sent != [] && Delivers(server(|sent| - 1, sent[|sent| - 1]), maxBytes, sent, r.value)
    ensures Concludes(Guard(lower), resolve, server, sent, maxBytes, r)
  {
    var guard := Guard(lower);
    r, sent := Follow(guard, resolve, server, request, credential, maxBytes);
    AllSafe(lower, server, resolve, request, credential, sent);
    ConnectorGuard(lower, request);
    if r.Ok? { Delivered(guard, resolve, server, sent, maxBytes, r); }
  }

  lemma {:induction false} AllSafe(lower: string -> string, server: (nat, Sent) -> Reply, resolve: (Url, string) -> Option<Url>,
                                   request: Url, credential: bool, sent: seq<Sent>)
    requires forall h | h in CONNECTOR_OPTIONS.allowedHosts :: lower(h) == h
    requires Logged(Guard(lower), server, resolve, request, credential, sent)
    ensures forall i | 0 <= i < |sent| :: Safe443(lower, sent[i].url)
    ensures forall i | 0 <= i < |sent| ::
      sent[i].authorised <==> credential && (i == 0 || SameOrigin(sent[i].url, request))
    ensures forall i | 0 <= i < |sent| :: Justified(server, resolve, request, sent[..i], sent[i].url)
  {
    forall i | 0 <= i < |sent|
      ensures Safe443(lower, sent[i].url)
      ensures sent[i].authorised <==> credential && (i == 0 || SameOrigin(sent[i].url, request))
      ensures Justified(server, resolve, request, sent[..i], sent[i].url)
    {
      assert LoggedAt(Guard(lower), server, resolve, request, credential, sent, i);
      ConnectorGuard(lower, sent[i].url);
    }
  }

  lemma {:induction false} Delivered(guard: Url -> bool, resolve: (Url, string) -> Option<Url>, server: (nat, Sent) -> Reply,
                                     sent: seq<Sent>, maxBytes: nat, r: Result<Answer, Failure>)
    requires Concludes(guard, resolve, server, sent, maxBytes, r) && r.Ok?
    ensures sent != [] && Delivers(server(|sent| - 1, sent[|sent| - 1]), maxBytes, sent, r.value)
  {
  }

  ghost predicate RedirectsOn(guard: Url -> bool, resolve: (Url, string) -> Option<Url>, reply: Reply, from: Url) {
    && reply.Reply? && Redirecting(reply.status)
    && exists location :: Points(reply, location)
                          && var next := resolve(from, location); next.Some? && guard(next.value)
  }

  /** A peer that always redirects to where the guard agrees uses up every hop: one fetch sends four requests. */
  lemma {:induction false} RedirectsAreSpent(guard: Url -> bool, resolve: (Url, string) -> Option<Url>, server: (nat, Sent) -> Reply,
                                             request: Url, credential: bool, maxBytes: nat, r: Result<Answer, Failure>, sent: seq<Sent>)
    requires 1 <= |sent| <= 4
    requires Concludes(guard, resolve, server, sent, maxBytes, r)
    requires forall i: nat, step: Sent :: RedirectsOn(guard, resolve, server(i, step), step.url)
    ensures |sent| == 4 && r == Err(RedirectBudgetSpent)
  {
    var last := |sent| - 1;
    assert RedirectsOn(guard, resolve, server(last, sent[last]), sent[last].url);
  }
}
