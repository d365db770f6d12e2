/** The `t=<unix>,v1=<hex>` request signature: printing, reading and checking it. */
module Signatures {
  import opened Text
  import opened ConstantTime

  const TIME := "t"
  const SCHEME := "v1"

  datatype Failure =
    | MissingHeader | MalformedHeader | MissingSignature | TimestampStale | TimestampInFuture | SignatureMismatch

  datatype Verdict = Valid(timestamp: nat) | Invalid(reason: Failure)

  datatype Parsed = Parsed(timestamp: nat, signatures: seq<string>)

  // ---- bytes, hexadecimal and the signed payload ----

  predicate IsBytes(b: seq<nat>) {
    forall i | 0 <= i < |b| :: b[i] < 256
  }

  function HexChar(d: nat): (c: char)
    requires d < 16
    ensures IsHexChar(c) && HexCharValue(c) == d
  {
    if d < 10 then '0' + d as char else 'a' + (d - 10) as char
  }

  predicate IsHexChar(c: char) {
    '0' <= c <= '9' || 'a' <= c <= 'f'
  }

  function HexCharValue(c: char): nat
    requires IsHexChar(c)
  {
    if c <= '9' then (c - '0') as nat else (c - 'a') as nat + 10
  }

  predicate LowerHex(s: string) {
    forall i | 0 <= i < |s| :: IsHexChar(s[i])
  }

  function ToHex(b: seq<nat>): (s: string)
    requires IsBytes(b)
    ensures |s| == 2 * |b| && LowerHex(s)
  {
    if b == [] then "" else [HexChar(b[0] / 16), HexChar(b[0] % 16)] + ToHex(b[1..])
  }

  lemma {:induction false} ToHexInjective(a: seq<nat>, b: seq<nat>)
    requires IsBytes(a) && IsBytes(b) && ToHex(a) == ToHex(b)
    ensures a == b
  {
    if a != [] {
      var s, t := ToHex(a), ToHex(b);
      assert s[2..] == ToHex(a[1..]) && t[2..] == ToHex(b[1..]);
      assert s[0] == HexChar(a[0] / 16) && s[1] == HexChar(a[0] % 16);
      assert t[0] == HexChar(b[0] / 16) && t[1] == HexChar(b[0] % 16);
      assert a[0] == b[0];
      ToHexInjective(a[1..], b[1..]);
      assert a == [a[0]] + a[1..] && b == [b[0]] + b[1..];
    }
  }

  /** The bytes of an ASCII string. */
  function Ascii(s: string): seq<nat> {
    seq(|s|, i requires 0 <= i < |s| => s[i] as nat)
  }

  function SignedPayload(timestamp: int, body: seq<nat>): seq<nat> {
    Ascii(Number(timestamp) + ".") + body
  }

  /** String(n) for a whole number. */
  function Number(n: int): string {
    if n >= 0 then Decimal(n) else "-" + Decimal(-n)
  }

  lemma {:induction false} DecimalInjective(m: nat, n: nat)
    requires Decimal(m) == Decimal(n)
    ensures m == n
  {
    DecimalRoundTrip(m);
    DecimalRoundTrip(n);
  }

  lemma {:induction false} DotFree(n: int)
    ensures '.' !in Number(n) && ',' !in Number(n)
  {
    var s := Number(n);
    assert forall i | 0 <= i < |s| :: IsDigit(s[i]) || s[i] == '-';
  }

  lemma {:induction false} NumberInjective(m: int, n: int)
    requires Number(m) == Number(n)
    ensures m == n
  {
    assert forall k: nat :: IsDigit(Decimal(k)[0]);
    if m >= 0 && n >= 0 {
      DecimalInjective(m, n);
    } else if m < 0 && n < 0 {
      assert Number(m)[1..] == Decimal(-m) && Number(n)[1..] == Decimal(-n);
      DecimalInjective(-m, -n);
    }
  }

  /** Where the signed text ends and the body begins is never in doubt. */
  lemma {:induction false} PayloadInjective(t: int, b: seq<nat>, t': int, b': seq<nat>)
    ensures SignedPayload(t, b) == SignedPayload(t', b') <==> t == t' && b == b'
  {
    if SignedPayload(t, b) == SignedPayload(t', b') {
      var s, s' := Number(t), Number(t');
      var p, p' := SignedPayload(t, b), SignedPayload(t', b');
      DotFree(t);
      DotFree(t');
      assert forall i | 0 <= i < |s| :: p[i] == s[i] as nat && s[i] in s;
      assert forall i | 0 <= i < |s'| :: p'[i] == s'[i] as nat && s'[i] in s';
      assert p[|s|] == '.' as nat && p'[|s'|] == '.' as nat;
      assert |s| == |s'|;
      assert s == s';
      NumberInjective(t, t');
      assert p[|s| + 1..] == b && p'[|s| + 1..] == b';
    }
  }

  // ---- reading the header ----

  /** Index of the first '=' in a trimmed part. */
  function Eq(part: string): int {
    IndexOf(part, "=")
  }

  function NameOf(part: string): string
    requires Eq(part) > 0
  {
    part[..Eq(part)]
  }

  function ValueOf(part: string): string
    requires Eq(part) > 0
  {
    part[Eq(part) + 1..]
  }

  predicate IsTimeValue(value: string) {
    1 <= |value| <= 15 && AllDigits(value)
  }

  /** A part the reader does not choke on: empty, or name=value with a plain time and a non-empty signature. */
  predicate PartReads(part: string) {
    part == ""
    || (&& Eq(part) > 0
        && (NameOf(part) == TIME ==> IsTimeValue(ValueOf(part)))
        && (NameOf(part) == SCHEME ==> ValueOf(part) != ""))
  }

  /** The values given to `name`, in order. */
  function Named(parts: seq<string>, name: string): seq<string> {
    if parts == [] then []
    else
      var part := parts[|parts| - 1];
      Named(parts[..|parts| - 1], name) + OneNamed(part, name)
  }

  function OneNamed(part: string, name: string): seq<string> {
    if Eq(part) > 0 && NameOf(part) == name then [ValueOf(part)] else []
  }

  lemma {:induction false} NamedStep(parts: seq<string>, i: nat, name: string)
    requires i < |parts|
    ensures Named(parts[..i + 1], name) == Named(parts[..i], name) + OneNamed(parts[i], name)
  {
    assert parts[..i + 1][..i] == parts[..i];
  }

  /** The comma-separated parts, each without surrounding white space. */
  function Parts(header: string): (parts: seq<string>)
    ensures |parts| == |Split(header, ",")|
  {
    var raw := Split(header, ",");
    seq(|raw|, i requires 0 <= i < |raw| => Trim(raw[i]))
  }

  predicate AllRead(parts: seq<string>) {
    forall i | 0 <= i < |parts| :: PartReads(parts[i])
  }

  /** Every part reads and exactly one of them is the time. */
  predicate Readable(header: string) {
    var parts := Parts(header);
    AllRead(parts) && |Named(parts, TIME)| == 1
  }

  function Signatures(header: string): seq<string> {
    Named(Parts(header), SCHEME)
  }

  lemma {:induction false} NamedIsTime(parts: seq<string>, k: nat)
    requires AllRead(parts) && k < |Named(parts, TIME)|
    ensures IsTimeValue(Named(parts, TIME)[k])
  {
    var init := parts[..|parts| - 1];
    if k < |Named(init, TIME)| {
      NamedIsTime(init, k);
    }
  }

  function TimeOf(header: string): nat
    requires Readable(header)
  {
    NamedIsTime(Parts(header), 0);
    DecimalValue(Named(Parts(header), TIME)[0])
  }

  lemma {:induction false} NamedGrows(parts: seq<string>, name: string, n: nat)
    requires n <= |parts|
    ensures |Named(parts[..n], name)| <= |Named(parts, name)|
    decreases |parts| - n
  {
    if n < |parts| {
      assert parts[..n + 1][..n] == parts[..n];
      NamedGrows(parts, name, n + 1);
    } else {
      assert parts[..n] == parts;
    }
  }

  method ReadPart(part: string) returns (r: Option<(string, string)>)
    ensures r.None? <==> Eq(part) <= 0
    ensures r.Some? ==> r.value == (NameOf(part), ValueOf(part))
  {
    var eq := IndexOf(part, "=");
    r := if eq <= 0 then None else Some((part[..eq], part[eq + 1..]));
  }

  /** The timestamp read is the one time value seen, if any was. */
  ghost predicate TimesRead(times: seq<string>, timestamp: Option<nat>) {
    if timestamp.None? then times == []
    else |times| == 1 && AllDigits(times[0]) && timestamp.value == DecimalValue(times[0])
  }

  /** What the loop knows after the parts in `seen`. */
  ghost predicate ReadSoFar(seen: seq<string>, timestamp: Option<nat>, signatures: seq<string>) {
    AllRead(seen) && TimesRead(Named(seen, TIME), timestamp) && signatures == Named(seen, SCHEME)
  }

  lemma {:induction false} TimesGrow(times: seq<string>, one: seq<string>, all: seq<string>, timestamp: Option<nat>, timestamp': Option<nat>)
    requires TimesRead(times, timestamp) && all == times + one
    requires if one == [] then timestamp' == timestamp else timestamp.None? && TimesRead(one, timestamp')
    ensures TimesRead(all, timestamp')
  {
    assert times + [] == times && [] + one == one;
  }

  lemma {:induction false} AllReadGrows(parts: seq<string>, i: nat)
    requires i < |parts| && AllRead(parts[..i]) && PartReads(parts[i])
    ensures AllRead(parts[..i + 1])
  {
    assert forall k | 0 <= k < i :: parts[..i + 1][k] == parts[..i][k];
  }

  /** One part that reads, after `seen`. */
  lemma {:induction false} ReadOneMore(parts: seq<string>, i: nat, timestamp: Option<nat>, signatures: seq<string>,
                    timestamp': Option<nat>, signatures': seq<string>)
    requires i < |parts| && ReadSoFar(parts[..i], timestamp, signatures) && PartReads(parts[i])
    requires var one := OneNamed(parts[i], TIME);
      if one == [] then timestamp' == timestamp else timestamp.None? && TimesRead(one, timestamp')
    requires signatures' == signatures + OneNamed(parts[i], SCHEME)
    ensures ReadSoFar(parts[..i + 1], timestamp', signatures')
  {
    NamedStep(parts, i, TIME);
    NamedStep(parts, i, SCHEME);
    AllReadGrows(parts, i);
    TimesGrow(Named(parts[..i], TIME), OneNamed(parts[i], TIME), Named(parts[..i + 1], TIME), timestamp, timestamp');
  }

  lemma {:induction false} SecondTime(parts: seq<string>, i: nat)
    requires i < |parts| && |Named(parts[..i], TIME)| == 1 && OneNamed(parts[i], TIME) != []
    ensures |Named(parts, TIME)| > 1
  {
    NamedStep(parts, i, TIME);
    NamedGrows(parts, TIME, i + 1);
  }

  /** One part: nothing when it does not read or is a second time. */
  method TakePart(part: string, timestamp: Option<nat>, signatures: seq<string>)
    returns (ok: bool, timestamp': Option<nat>, signatures': seq<string>)
    ensures ok <==> PartReads(part) && !(timestamp.Some? && OneNamed(part, TIME) != [])
    ensures ok ==> if OneNamed(part, TIME) == [] then timestamp' == timestamp
                   else timestamp.None? && TimesRead(OneNamed(part, TIME), timestamp')
    ensures ok ==> signatures' == signatures + OneNamed(part, SCHEME)
  {
    timestamp', signatures' := timestamp, signatures;
    if part == "" { return true, timestamp', signatures'; }
    var entry := ReadPart(part);
    if entry.None? { return false, timestamp', signatures'; }
    var (name, value) := entry.value;
    if name == TIME {
      if timestamp.Some? || !IsTimeValue(value) { return false, timestamp', signatures'; }
      timestamp' := Some(DecimalValue(value));
    } else if name == SCHEME {
      if value == "" { return false, timestamp', signatures'; }
      signatures' := signatures + [value];
    }
    ok := true;
  }

  method ParseTimestampedHeader(header: string) returns (r: Option<Parsed>)
    ensures r.Some? <==> Readable(header)
    ensures r.Some? ==> r.value == Parsed(TimeOf(header), Signatures(header))
  {
    var timestamp: Option<nat> := None;
    var signatures: seq<string> := [];
    var raw := Split(header, ",");
    ghost var parts := Parts(header);
    for i := 0 to |raw|
      invariant ReadSoFar(parts[..i], timestamp, signatures)
    {
      var part := Trim(raw[i]);
      var ok, next, more := TakePart(part, timestamp, signatures);
      if !ok {
        Unreadable(parts, i, timestamp, signatures);
        return None;
      }
      ReadOneMore(parts, i, timestamp, signatures, next, more);
      timestamp, signatures := next, more;
    }
    assert parts[..|raw|] == parts;
    if timestamp.None? { return None; }
    r := Some(Parsed(timestamp.value, signatures));
  }

  lemma {:induction false} Unreadable(parts: seq<string>, i: nat, timestamp: Option<nat>, signatures: seq<string>)
    requires i < |parts| && ReadSoFar(parts[..i], timestamp, signatures)
    requires !PartReads(parts[i]) || (timestamp.Some? && OneNamed(parts[i], TIME) != [])
    ensures !(AllRead(parts) && |Named(parts, TIME)| == 1)
  {
    if PartReads(parts[i]) {
      SecondTime(parts, i);
    }
  }

  // ---- signing and verifying ----

  /** A keyed digest of 32 bytes; the platform's HMAC-SHA-256 is one. */
  type Mac = (string, seq<nat>) -> seq<nat>

  ghost predicate IsMac(mac: Mac) {
    forall key, message :: IsBytes(mac(key, message)) && |mac(key, message)| == 32
  }

  /** The platform's toLowerCase leaves lower-case hexadecimal alone. */
  ghost predicate KeepsHex(lower: string -> string) {
    forall s :: LowerHex(s) ==> lower(s) == s
  }

  function SignRequest(mac: Mac, secret: string, body: seq<nat>, t: int): string
    requires IsBytes(mac(secret, SignedPayload(t, body)))
  {
    "t=" + Number(t) + ",v1=" + ToHex(mac(secret, SignedPayload(t, body)))
  }

  /** Math.floor(now / 1000) */
  function UnixSeconds(now: int): int {
    now / 1000
  }

  /** Some v1 value, in lower case, compares equal to the digest at the header's own time. */
  ghost predicate Matches(mac: Mac, lower: string -> string, secret: string, header: string, body: seq<nat>)
    requires IsMac(mac) && Readable(header)
  {
    exists i | 0 <= i < |Signatures(header)| ::
      Agree(ToHex(mac(secret, SignedPayload(TimeOf(header), body))), lower(Signatures(header)[i]))
  }

  ghost function Check(mac: Mac, lower: string -> string, secret: string, header: Option<string>, body: seq<nat>,
                       now: int, tolerance: int): Verdict
    requires IsMac(mac)
  {
    if header.None? || Trim(header.value) == "" then Invalid(MissingHeader)
    else if !Readable(header.value) then Invalid(MalformedHeader)
    else if Signatures(header.value) == [] then Invalid(MissingSignature)
    else
      var t := TimeOf(header.value);
      if t > UnixSeconds(now) + tolerance then Invalid(TimestampInFuture)
      else if t < UnixSeconds(now) - tolerance then Invalid(TimestampStale)
      else if Matches(mac, lower, secret, header.value, body) then Valid(t)
      else Invalid(SignatureMismatch)
  }

  method VerifyRequest(mac: Mac, lower: string -> string, secret: string, header: Option<string>, body: seq<nat>,
                       now: int, tolerance: int) returns (r: Verdict)
    requires IsMac(mac)
    ensures r == Check(mac, lower, secret, header, body, now, tolerance)
  {
    if header.None? || Trim(header.value) == "" { return Invalid(MissingHeader); }
    var parsed := ParseTimestampedHeader(header.value);
    if parsed.None? { return Invalid(MalformedHeader); }
    var candidates := parsed.value.signatures;
    if candidates == [] { return Invalid(MissingSignature); }
    var t := parsed.value.timestamp;
    if t > UnixSeconds(now) + tolerance { return Invalid(TimestampInFuture); }
    if t < UnixSeconds(now) - tolerance { return Invalid(TimestampStale); }
    var expected := ToHex(mac(secret, SignedPayload(t, body)));
    for i := 0 to |candidates|
      invariant forall j | 0 <= j < i :: !Agree(expected, lower(candidates[j]))
    {
      var equal := TimingSafeEqual(expected, lower(candidates[i]));
      if equal { return Valid(t); }
    }
    r := Invalid(SignatureMismatch);
  }

  // ---- what a signed header reads back as ----

  predicate Plain(s: string) {
    forall i | 0 <= i < |s| :: IsHexChar(s[i]) || s[i] == '-'
  }

  /** A name=value part splits at the first '=' and has nothing to trim. */
  lemma {:induction false} PlainPart(name: string, value: string)
    requires name != "" && value != "" && Plain(value)
    requires forall i | 0 <= i < |name| :: 'a' <= name[i] <= 'z' || IsDigit(name[i])
    ensures var part := name + "=" + value;
      Trim(part) == part && Eq(part) == |name| && NameOf(part) == name && ValueOf(part) == value
  {
    var part := name + "=" + value;
    assert part[0] == name[0] && part[|part| - 1] == value[|value| - 1];
    TrimSolid(part);
    assert part[|name|] == '=';
    IndexOfIsFirst(part, "=");
    assert MatchAt(part, "=", |name|);
    forall i | MatchAt(part, "=", i)
      ensures i >= |name|
    {
      MatchChars(part, "=", i);
      assert part[i] == '=';
    }
  }

  lemma {:induction false} TwoParts(parts: seq<string>, name: string)
    requires |parts| == 2
    ensures Named(parts, name) == OneNamed(parts[0], name) + OneNamed(parts[1], name)
  {
    NamedStep(parts, 0, name);
    NamedStep(parts, 1, name);
    assert parts[..2] == parts;
  }

  lemma {:induction false} SignedParts(a: string, b: string)
    requires ',' !in a && ',' !in b && Trim(a) == a && Trim(b) == b
    ensures Parts(a + "," + b) == [a, b]
  {
    SplitStep(a, ',', b);
    SplitStep(b, ',', "");
    assert Split(a + "," + b, ",") == [a, b];
  }

  lemma {:induction false} SignedNames(parts: seq<string>, number: string, hex: string)
    requires |parts| == 2 && hex != ""
    requires Eq(parts[0]) > 0 && NameOf(parts[0]) == TIME && ValueOf(parts[0]) == number
    requires Eq(parts[1]) > 0 && NameOf(parts[1]) == SCHEME && ValueOf(parts[1]) == hex
    ensures Named(parts, TIME) == [number] && Named(parts, SCHEME) == [hex]
    ensures AllRead(parts) <==> IsTimeValue(number)
  {
    TwoParts(parts, TIME);
    TwoParts(parts, SCHEME);
    assert PartReads(parts[1]);
    assert PartReads(parts[0]) <==> IsTimeValue(number);
  }

  lemma {:induction false} NumberReads(t: int)
    ensures Plain(Number(t)) && Number(t) != ""
    ensures IsTimeValue(Number(t)) <==> 0 <= t < Power10(15)
    ensures t >= 0 ==> DecimalValue(Number(t)) == t
  {
    if t >= 0 {
      DecimalLength(t, 15);
      DecimalRoundTrip(t);
    } else {
      assert Number(t)[0] == '-';
    }
  }

  /** A header of a time part and a signature part. */
  lemma {:induction false} TwoPartHeader(header: string, a: string, b: string, number: string, hex: string)
    requires header == a + "," + b && ',' !in a && ',' !in b && Trim(a) == a && Trim(b) == b
    requires Eq(a) > 0 && NameOf(a) == TIME && ValueOf(a) == number
    requires Eq(b) > 0 && NameOf(b) == SCHEME && ValueOf(b) == hex && hex != ""
    ensures Readable(header) <==> IsTimeValue(number)
    ensures Readable(header) ==> TimeOf(header) == DecimalValue(number)
    ensures Signatures(header) == [hex]
  {
    SignedParts(a, b);
    SignedNames([a, b], number, hex);
  }

  lemma {:induction false} SignedShape(number: string, hex: string, a: string, b: string)
    requires Plain(number) && LowerHex(hex)
    requires a == "t" + "=" + number && b == "v1" + "=" + hex
    ensures "t=" + number + ",v1=" + hex == a + "," + b
    ensures ',' !in a && ',' !in b
  {
    assert a == "t=" + number && b == "v1=" + hex;
    assert ",v1=" + hex == "," + b;
    assert "t=" + number + ",v1=" + hex == "t=" + number + (",v1=" + hex);
  }

  /** The reader inverts the printer exactly on times of at most fifteen digits. */
  lemma {:induction false} SignedHeaderReads(mac: Mac, secret: string, body: seq<nat>, t: int, header: string)
    requires IsMac(mac)
    requires header == SignRequest(mac, secret, body, t)
    ensures Readable(header) <==> 0 <= t < Power10(15)
    ensures Readable(header) ==> TimeOf(header) == t
    ensures Signatures(header) == [ToHex(mac(secret, SignedPayload(t, body)))]
  {
    var hex, number := ToHex(mac(secret, SignedPayload(t, body))), Number(t);
    var a, b := "t" + "=" + number, "v1" + "=" + hex;
    NumberReads(t);
    SignedShape(number, hex, a, b);
    PlainPart("t", number);
    PlainPart("v1", hex);
    TwoPartHeader(header, a, b, number, hex);
  }

  lemma {:induction false} NotBlank(header: string)
    requires header != "" && !IsSpace(header[0]) && !IsSpace(header[|header| - 1])
    ensures Trim(header) != ""
  {
    TrimSolid(header);
  }

  lemma {:induction false} FifteenDigits()
    ensures Power10(15) == 1_000_000_000_000_000
  {
    assert Power10(3) == 1000;
    assert Power10(6) == 1_000_000;
    assert Power10(9) == 1_000_000_000;
    assert Power10(12) == 1_000_000_000_000;
  }

  /** Our own header is accepted exactly when its time has at most fifteen digits and is within the tolerance of the clock,
      which counts milliseconds and stands for whole seconds, whatever the key, the body and the digest. */
  lemma {:induction false} SignThenVerify(mac: Mac, lower: string -> string, secret: string, body: seq<nat>, t: int, now: int,
                       tolerance: int)
    requires IsMac(mac) && KeepsHex(lower)
    ensures var v := Check(mac, lower, secret, Some(SignRequest(mac, secret, body, t)), body, now, tolerance);
      && (v.Valid? <==> 0 <= t < 1_000_000_000_000_000 && 1000 * (t - tolerance) <= now < 1000 * (t + tolerance + 1))
      && (v.Valid? ==> v.timestamp == t)
      && (v.Invalid? ==> v.reason in {MalformedHeader, TimestampInFuture, TimestampStale})
  {
    var header := SignRequest(mac, secret, body, t);
    assert Power10(15) == 1_000_000_000_000_000 by { FifteenDigits(); }
    var hex := ToHex(mac(secret, SignedPayload(t, body)));
    SignedHeaderReads(mac, secret, body, t, header);
    assert header[0] == 't' && header[|header| - 1] == hex[|hex| - 1];
    NotBlank(header);
    if Readable(header) {
      assert lower(hex) == hex && Agree(hex, hex);
      assert Signatures(header)[0] == hex;
      assert Matches(mac, lower, secret, header, body);
    }
  }

  /** Whatever header is accepted, it carries the digest of this body at its own time, and that time is fresh. */
  lemma {:induction false} AcceptedCarriesTheDigest(mac: Mac, lower: string -> string, secret: string, header: Option<string>,
                                 body: seq<nat>, now: int, tolerance: int)
    requires IsMac(mac)
    requires header.Some? && forall v | v in Signatures(header.value) :: |lower(v)| < WORD
    requires Check(mac, lower, secret, header, body, now, tolerance).Valid?
    ensures var t := Check(mac, lower, secret, header, body, now, tolerance).timestamp;
      && Readable(header.value) && t == TimeOf(header.value)
      && 1000 * (t - tolerance) <= now < 1000 * (t + tolerance + 1)
      && exists v | v in Signatures(header.value) :: lower(v) == ToHex(mac(secret, SignedPayload(t, body)))
  {
    var t := TimeOf(header.value);
    var hex := ToHex(mac(secret, SignedPayload(t, body)));
    var i :| 0 <= i < |Signatures(header.value)| && Agree(hex, lower(Signatures(header.value)[i]));
    var v := Signatures(header.value)[i];
    assert v in Signatures(header.value);
    ShortAgreementIsEquality(hex, lower(v));
  }

  /** Re-stamping or re-using a signature: if one v1 value passes for two requests, the requests are the
      same or the digest collides. */
  lemma {:induction false} ReuseNeedsCollision(mac: Mac, lower: string -> string, secret: string, value: string,
                            t: nat, body: seq<nat>, t': nat, body': seq<nat>)
    requires IsMac(mac)
    requires lower(value) == ToHex(mac(secret, SignedPayload(t, body)))
    requires lower(value) == ToHex(mac(secret, SignedPayload(t', body')))
    ensures mac(secret, SignedPayload(t, body)) == mac(secret, SignedPayload(t', body'))
    ensures (t == t' && body == body') || SignedPayload(t, body) != SignedPayload(t', body')
  {
    ToHexInjective(mac(secret, SignedPayload(t, body)), mac(secret, SignedPayload(t', body')));
    PayloadInjective(t, body, t', body');
  }
}
