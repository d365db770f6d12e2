/** IP literals in host names, and which addresses no request may reach. */
module UrlGuard {
  import opened Text

  datatype ParsedIp = V4(bytes: seq<nat>) | V6(words: seq<nat>)

  // ---- numbers ----

  predicate IsHex(c: char) {
    IsDigit(c) || 'a' <= c <= 'f' || 'A' <= c <= 'F'
  }

  function HexValue(c: char): (v: nat)
    requires IsHex(c)
    ensures v < 16
  {
    if IsDigit(c) then (c - '0') as nat else if c >= 'a' then (c - 'a') as nat + 10 else (c - 'A') as nat + 10
  }

  predicate AllHex(s: string) {
    forall i | 0 <= i < |s| :: IsHex(s[i])
  }

  /** Number.parseInt(s, radix) for a string of digits of that radix. */
  function ParseInt(s: string, radix: nat): nat
    requires AllHex(s)
  {
    if s == "" then 0 else radix * ParseInt(s[..|s| - 1], radix) + HexValue(s[|s| - 1])
  }

  function HexChar(d: nat): (c: char)
    requires d < 16
    ensures IsHex(c) && HexValue(c) == d && c != ':' && c != '.'
  {
    if d < 10 then '0' + d as char else 'a' + (d - 10) as char
  }

  /** n.toString(16) */
  function ToHex(n: nat): (s: string)
    ensures s != "" && AllHex(s)
  {
    if n < 16 then [HexChar(n)] else ToHex(n / 16) + [HexChar(n % 16)]
  }

  lemma {:induction false} ToHexRoundTrip(n: nat)
    ensures ParseInt(ToHex(n), 16) == n
    decreases n
  {
    var s := ToHex(n);
    if n >= 16 {
      ToHexRoundTrip(n / 16);
      assert s[..|s| - 1] == ToHex(n / 16);
    } else {
      assert s[..0] == "";
    }
  }

  function Power16(k: nat): nat {
    if k == 0 then 1 else 16 * Power16(k - 1)
  }

  lemma {:induction false} ToHexIsShort(n: nat, k: nat)
    requires k >= 1 && n < Power16(k)
    ensures |ToHex(n)| <= k
  {
    if n >= 16 {
      ToHexIsShort(n / 16, k - 1);
    }
  }

  // ---- IPv4, as inet_aton reads it ----

  /** One dotted part: hexadecimal, octal or decimal, at most 2^53 - 1. */
  function PartValue(raw: string): Option<nat> {
    if raw == "" then None
    else if |raw| > 2 && raw[0] == '0' && (raw[1] == 'x' || raw[1] == 'X') && AllHex(raw[2..]) then
      Safe(ParseInt(raw[2..], 16))
    else if |raw| > 1 && raw[0] == '0' && forall i | 1 <= i < |raw| :: '0' <= raw[i] <= '7' then
      Safe(ParseInt(raw[1..], 8))
    else if AllDigits(raw) then Safe(ParseInt(raw, 10))
    else None
  }

  function Safe(v: nat): Option<nat> {
    if v <= MAX_SAFE_INTEGER then Some(v) else None
  }

  function PartValues(parts: seq<string>): (r: Option<seq<nat>>)
    ensures r.Some? ==> |r.value| == |parts|
  {
    if parts == [] then Some([])
    else
      var front := PartValues(parts[..|parts| - 1]);
      var last := PartValue(parts[|parts| - 1]);
      if front.None? || last.None? then None else Some(front.value + [last.value])
  }

  function Power256(n: nat): (p: nat)
    ensures p >= 1
  {
    if n == 0 then 1 else 256 * Power256(n - 1)
  }

  /** The n lowest bytes of v, highest first. */
  function Bytes(v: nat, n: nat): (b: seq<nat>)
    ensures |b| == n && forall i | 0 <= i < n :: b[i] < 256
  {
    if n == 0 then [] else [v / Power256(n - 1) % 256] + Bytes(v, n - 1)
  }

  /** The last part fills the bytes the leading parts leave. */
  function Assemble(nums: seq<nat>): Option<ParsedIp>
    requires 1 <= |nums| <= 4
  {
    var leading := |nums| - 1;
    var last := nums[leading];
    if last >= Power256(4 - leading) then None
    else if exists i | 0 <= i < leading :: nums[i] > 255 then None
    else Some(V4(nums[..leading] + Bytes(last, 4 - leading)))
  }

  function Ipv4(host: string): (r: Option<ParsedIp>)
    ensures r.Some? ==> r.value.V4? && |r.value.bytes| == 4 && forall i | 0 <= i < 4 :: r.value.bytes[i] < 256
  {
    var parts := Split(host, ".");
    if host == "" || |parts| > 4 then None
    else
      var nums := PartValues(parts);
      if nums.None? then None else Assemble(nums.value)
  }

  method ParseIpv4Loose(host: string) returns (r: Option<ParsedIp>)
    ensures r == Ipv4(host)
  {
    if host == "" { return None; }
    var parts := Split(host, ".");
    if |parts| > 4 { return None; }
    var nums := ReadParts(parts);
    if nums.None? { return None; }
    r := AssembleParts(nums.value);
  }

  method ReadParts(parts: seq<string>) returns (r: Option<seq<nat>>)
    ensures r == PartValues(parts)
  {
    var nums := [];
    for i := 0 to |parts|
      invariant PartValues(parts[..i]) == Some(nums)
    {
      assert parts[..i + 1][..i] == parts[..i];
      var value := PartValue(parts[i]);
      if value.None? {
        NoPartNoAddress(parts, i + 1);
        return None;
      }
      nums := nums + [value.value];
    }
    assert parts[..|parts|] == parts;
    r := Some(nums);
  }

  method AssembleParts(nums: seq<nat>) returns (r: Option<ParsedIp>)
    requires 1 <= |nums| <= 4
    ensures r == Assemble(nums)
  {
    var leading := |nums| - 1;
    var last := nums[leading];
    if last >= Power256(4 - leading) { return None; }
    for i := 0 to leading
      invariant forall j | 0 <= j < i :: nums[j] <= 255
    {
      if nums[i] > 255 { return None; }
    }
    var bytes: seq<nat> := [];
    for i := 0 to leading
      invariant bytes == nums[..i]
    {
      bytes := bytes + [nums[i]];
    }
    ghost var whole := bytes + Bytes(last, 4 - leading);
    for i := 4 - leading downto 0
      invariant bytes + Bytes(last, i) == whole
    {
      BytesStep(last, i, bytes);
      bytes := bytes + [last / Power256(i) % 256];
    }
    assert bytes + Bytes(last, 0) == bytes;
    r := Some(V4(bytes));
  }

  lemma {:induction false} BytesStep(v: nat, i: nat, front: seq<nat>)
    ensures front + Bytes(v, i + 1) == front + [v / Power256(i) % 256] + Bytes(v, i)
  {
    assert Bytes(v, i + 1) == [v / Power256(i) % 256] + Bytes(v, i);
  }

  lemma {:induction false} NoPartNoAddress(parts: seq<string>, n: nat)
    requires n <= |parts| && PartValues(parts[..n]).None?
    ensures PartValues(parts).None?
    decreases |parts| - n
  {
    if n < |parts| {
      assert parts[..n + 1][..n] == parts[..n];
      NoPartNoAddress(parts, n + 1);
    } else {
      assert parts[..n] == parts;
    }
  }

  // ---- dotted decimal reads back ----

  predicate IsQuad(b: seq<nat>) {
    |b| == 4 && forall i | 0 <= i < 4 :: b[i] < 256
  }

  function Dotted(b: seq<nat>): string {
    Join(seq(|b|, i requires 0 <= i < |b| => Decimal(b[i])), ".")
  }

  lemma {:induction false} DecimalShape(n: nat)
    ensures var s := Decimal(n); '.' !in s && ':' !in s && AllHex(s) && ParseInt(s, 10) == n && (|s| > 1 ==> s[0] != '0')
    ensures n > 0 ==> Decimal(n)[0] != '0'
    decreases n
  {
    var s := Decimal(n);
    if n >= 10 {
      DecimalShape(n / 10);
      assert s[..|s| - 1] == Decimal(n / 10);
    } else {
      assert s[..0] == "";
    }
    assert forall i | 0 <= i < |s| :: IsDigit(s[i]);
  }

  lemma {:induction false} DecimalPart(n: nat)
    requires n <= MAX_SAFE_INTEGER
    ensures PartValue(Decimal(n)) == Some(n)
  {
    DecimalShape(n);
  }

  lemma {:induction false} PartValuesOf(parts: seq<string>, nums: seq<nat>)
    requires |parts| == |nums| && forall i | 0 <= i < |nums| :: PartValue(parts[i]) == Some(nums[i])
    ensures PartValues(parts) == Some(nums)
    decreases |parts|
  {
    if parts != [] {
      var n := |parts| - 1;
      PartValuesOf(parts[..n], nums[..n]);
      assert nums == nums[..n] + [nums[n]];
    }
  }

  lemma {:induction false} DottedRoundTrip(b: seq<nat>)
    requires IsQuad(b)
    ensures Ipv4(Dotted(b)) == Some(V4(b))
    ensures '.' in Dotted(b) && ':' !in Dotted(b)
  {
    var parts := seq(|b|, i requires 0 <= i < |b| => Decimal(b[i]));
    forall i | 0 <= i < 4
      ensures '.' !in parts[i] && ':' !in parts[i] && PartValue(parts[i]) == Some(b[i])
    {
      DecimalShape(b[i]);
      DecimalPart(b[i]);
    }
    SplitJoin(parts, '.');
    PartValuesOf(parts, b);
    QuadAssembles(b);
    JoinChars(parts, '.', ':');
  }

  lemma {:induction false} QuadAssembles(b: seq<nat>)
    requires IsQuad(b)
    ensures Assemble(b) == Some(V4(b))
  {
    assert Power256(4 - 3) == 256;
    assert b[3] / Power256(0) % 256 == b[3];
    assert Bytes(b[3], 4 - 3) == [b[3]];
    assert b == b[..3] + [b[3]];
  }

  lemma {:induction false} JoinChars(parts: seq<string>, sep: char, c: char)
    requires c != sep && forall i | 0 <= i < |parts| :: c !in parts[i]
    ensures c !in Join(parts, [sep])
    ensures |parts| > 1 ==> sep in Join(parts, [sep])
  {
    if |parts| > 1 {
      JoinChars(parts[1..], sep, c);
    }
  }

  // ---- every loose spelling is read as the number it writes ----

  /** Leading parts are one byte each, the last part fills what is left of n bytes. */
  predicate Fits(nums: seq<nat>, n: nat) {
    1 <= |nums| <= n && nums[|nums| - 1] < Power256(n + 1 - |nums|) && forall i | 0 <= i < |nums| - 1 :: nums[i] <= 255
  }

  /** The number these parts write, in n bytes. */
  function Weighted(nums: seq<nat>, n: nat): nat
    requires 1 <= |nums| <= n
  {
    if |nums| == 1 then nums[0] else nums[0] * Power256(n - 1) + Weighted(nums[1..], n - 1)
  }

  lemma {:induction false} HighPartIgnored(h: nat, v: nat, n: nat, m: nat)
    requires n <= m
    ensures Bytes(h * Power256(m) + v, n) == Bytes(v, n)
    decreases n
  {
    if n > 0 {
      var p, q := Power256(n - 1), Power256(m - n);
      PowerSplit(m, n - 1);
      assert Power256(m - n + 1) == 256 * q;
      OneByte(h * q, v, p, h * Power256(m) + v) by { Regroup(h, q, p, Power256(m)); }
      HighPartIgnored(h, v, n - 1, m);
    }
  }

  lemma {:induction false} PowerSplit(m: nat, k: nat)
    requires k <= m
    ensures Power256(m) == Power256(m - k) * Power256(k)
    decreases k
  {
    if k > 0 {
      PowerSplit(m - 1, k - 1);
      assert Power256(m) == 256 * Power256(m - 1) && Power256(k) == 256 * Power256(k - 1);
      Shuffle(Power256(m - k), Power256(k - 1));
    }
  }

  lemma {:induction false} Shuffle(a: nat, b: nat)
    ensures 256 * (a * b) == a * (256 * b)
  {
  }

  lemma {:induction false} Regroup(h: nat, q: nat, p: nat, whole: nat)
    requires whole == 256 * q * p
    ensures h * whole == 256 * (h * q) * p
  {
    assert h * (256 * q * p) == 256 * (h * q) * p by { assert h * (256 * q * p) == h * 256 * q * p; }
  }

  lemma {:induction false} OneByte(k: nat, v: nat, p: nat, w: nat)
    requires p > 0 && w == 256 * k * p + v
    ensures w / p % 256 == v / p % 256
  {
    var d, r := v / p, v % p;
    assert w == (256 * k + d) * p + r;
    QuotientIs(w, p, 256 * k + d, r);
  }

  lemma {:induction false} QuotientIs(w: nat, p: nat, d: nat, r: nat)
    requires w == d * p + r && r < p
    ensures w / p == d
  {
    var q := w / p;
    if q < d {
      MulGrows(q, d, p);
    } else if d < q {
      MulGrows(d, q, p);
    }
  }

  lemma {:induction false} MulGrows(a: nat, b: nat, p: nat)
    requires a < b
    ensures (a + 1) * p <= b * p
  {
  }

  lemma {:induction false} LeadingByte(lead: nat, low: nat, p: nat)
    requires lead <= 255 && low < p
    ensures lead * p + low < 256 * p && (lead * p + low) / p % 256 == lead
  {
    QuotientIs(lead * p + low, p, lead, low);
    if lead < 255 {
      MulGrows(lead, 255, p);
      OneMoreTimes(lead, p);
    }
  }

  lemma {:induction false} OneMoreTimes(a: nat, p: nat)
    ensures (a + 1) * p == a * p + p
  {
  }

  lemma {:induction false} PrependByte(lead: nat, low: nat, n: nat, v: nat)
    requires lead <= 255 && low < Power256(n) && v == lead * Power256(n) + low
    ensures v < Power256(n + 1) && Bytes(v, n + 1) == [lead] + Bytes(low, n)
  {
    LeadingByte(lead, low, Power256(n));
    HighPartIgnored(lead, low, n, n);
  }

  lemma {:induction false} WeightedBytes(nums: seq<nat>, n: nat)
    requires Fits(nums, n)
    ensures Weighted(nums, n) < Power256(n)
    ensures Bytes(Weighted(nums, n), n) == nums[..|nums| - 1] + Bytes(nums[|nums| - 1], n + 1 - |nums|)
    decreases |nums|
  {
    if |nums| > 1 {
      var rest := nums[1..];
      FitsRest(nums, n);
      WeightedBytes(rest, n - 1);
      PrependByte(nums[0], Weighted(rest, n - 1), n - 1, Weighted(nums, n));
      assert nums[..|nums| - 1] == [nums[0]] + rest[..|rest| - 1];
    }
  }

  lemma {:induction false} FitsRest(nums: seq<nat>, n: nat)
    requires Fits(nums, n) && |nums| > 1
    ensures Fits(nums[1..], n - 1) && nums[0] <= 255
  {
  }

  /** One to four parts, each in decimal, octal or hexadecimal: the address is the one number they write, in
      whatever spelling, and there is none exactly when a part is too large for its place. */
  lemma {:induction false} LooseSpellings(parts: seq<string>, nums: seq<nat>, host: string)
    requires 1 <= |parts| <= 4 && |nums| == |parts| && host == Join(parts, ".") && host != ""
    requires forall i | 0 <= i < |parts| :: '.' !in parts[i] && PartValue(parts[i]) == Some(nums[i])
    ensures Ipv4(host).Some? <==> Fits(nums, 4)
    ensures Fits(nums, 4) ==> Ipv4(host) == Some(V4(Bytes(Weighted(nums, 4), 4)))
  {
    SplitJoin(parts, '.');
    PartValuesOf(parts, nums);
    if Fits(nums, 4) {
      WeightedBytes(nums, 4);
    }
  }

  /** The same number in hexadecimal and in decimal. */
  lemma {:induction false} PartSpellings(n: nat)
    requires n <= MAX_SAFE_INTEGER
    ensures PartValue(Decimal(n)) == Some(n) && PartValue("0x" + ToHex(n)) == Some(n)
  {
    DecimalPart(n);
    ToHexRoundTrip(n);
    var s := "0x" + ToHex(n);
    assert s[2..] == ToHex(n);
  }

  // ---- IPv6 ----

  /** One to four hexadecimal digits. */
  predicate IsGroup(g: string) {
    1 <= |g| <= 4 && AllHex(g)
  }

  predicate AreGroups(gs: seq<string>) {
    forall i | 0 <= i < |gs| :: IsGroup(gs[i])
  }

  function Values(gs: seq<string>): (ws: seq<nat>)
    requires AreGroups(gs)
    ensures |ws| == |gs|
  {
    seq(|gs|, i requires 0 <= i < |gs| => ParseInt(gs[i], 16))
  }

  function Words(s: string): Option<seq<nat>> {
    if s == "" then Some([])
    else if AreGroups(Split(s, ":")) then Some(Values(Split(s, ":")))
    else None
  }

  function Zeros(n: nat): (zeros: seq<nat>)
    ensures |zeros| == n && forall i | 0 <= i < n :: zeros[i] == 0
  {
    seq(n, _ => 0)
  }

  /** The text once a trailing dotted quad has become two hexadecimal groups. */
  function Ipv6Hex(text: string): Option<ParsedIp> {
    var doubleColon := IndexOf(text, "::");
    if doubleColon == -1 then
      var words := Words(text);
      if words.None? || |words.value| != 8 then None else Some(V6(words.value))
    else if IndexFrom(text, "::", doubleColon + 1) != -1 then None
    else
      var head := Words(text[..doubleColon]);
      var tail := Words(text[doubleColon + 2..]);
      if head.None? || tail.None? || |head.value| + |tail.value| > 7 then None
      else Some(V6(head.value + Zeros(8 - |head.value| - |tail.value|) + tail.value))
  }

  function QuadAsGroups(b: seq<nat>): string
    requires IsQuad(b)
  {
    ToHex(256 * b[0] + b[1]) + ":" + ToHex(256 * b[2] + b[3])
  }

  function Ipv6(host: string): Option<ParsedIp> {
    if ':' !in host then None
    else
      var lastColon := LastIndexOfChar(host, ':');
      var afterColon := host[lastColon + 1..];
      if '.' in afterColon then
        var v4 := Ipv4(afterColon);
        if v4.None? then None else Ipv6Hex(host[..lastColon + 1] + QuadAsGroups(v4.value.bytes))
      else Ipv6Hex(host)
  }

  method ToWords(s: string) returns (r: Option<seq<nat>>)
    ensures r == Words(s)
  {
    if s == "" { return Some([]); }
    var groups := Split(s, ":");
    var out: seq<nat> := [];
    for i := 0 to |groups|
      invariant AreGroups(groups[..i]) && out == Values(groups[..i])
    {
      if !IsGroup(groups[i]) { return None; }
      out := out + [ParseInt(groups[i], 16)];
    }
    assert groups[..|groups|] == groups;
    r := Some(out);
  }

  method ParseIpv6Loose(host: string) returns (r: Option<ParsedIp>)
    ensures r == Ipv6(host)
  {
    if ':' !in host { return None; }
    var text := host;
    var lastColon := LastIndexOfChar(host, ':');
    var afterColon := host[lastColon + 1..];
    if '.' in afterColon {
      var v4 := ParseIpv4Loose(afterColon);
      if v4.None? { return None; }
      text := host[..lastColon + 1] + QuadAsGroups(v4.value.bytes);
    }
    r := ParseGroups(text);
  }

  method ParseGroups(text: string) returns (r: Option<ParsedIp>)
    ensures r == Ipv6Hex(text)
  {
    var doubleColon := IndexOf(text, "::");
    var headText, tailText := text, "";
    if doubleColon != -1 {
      if IndexFrom(text, "::", doubleColon + 1) != -1 { return None; }
      headText := text[..doubleColon];
      tailText := text[doubleColon + 2..];
    }
    var head := ToWords(headText);
    var tail := ToWords(tailText);
    if head.None? || tail.None? { return None; }
    var explicit := head.value + tail.value;
    if doubleColon == -1 {
      assert explicit == head.value;
      return if |explicit| != 8 then None else Some(V6(explicit));
    }
    if |explicit| > 7 { return None; }
    r := Some(V6(head.value + Zeros(8 - |explicit|) + tail.value));
  }

  function ParseIpLiteral(host: string): Option<ParsedIp> {
    if Ipv6(host).Some? then Ipv6(host) else Ipv4(host)
  }

  // ---- what the parser accepts, as a grammar ----

  /** Eight groups, or two lists of groups around `::` that leave room for at least one zero word. */
  ghost predicate HexForm(text: string, ws: seq<nat>) {
    || (exists gs | AreGroups(gs) :: |gs| == 8 && text == Join(gs, ":") && ws == Values(gs))
    || (exists hs, ts | AreGroups(hs) && AreGroups(ts) :: Compressed(text, ws, hs, ts))
  }

  ghost predicate Compressed(text: string, ws: seq<nat>, hs: seq<string>, ts: seq<string>)
    requires AreGroups(hs) && AreGroups(ts)
  {
    && |hs| + |ts| <= 7
    && text == Join(hs, ":") + "::" + Join(ts, ":")
    && ws == Values(hs) + Zeros(8 - |hs| - |ts|) + Values(ts)
  }

  /** No two colons in a row, and none at either end. */
  ghost predicate Spaced(s: string) {
    && (s != "" ==> s[0] != ':' && s[|s| - 1] != ':')
    && forall i | 0 <= i < |s| - 1 :: !(s[i] == ':' && s[i + 1] == ':')
  }

  lemma {:induction false} GroupHasNoColon(g: string)
    requires IsGroup(g)
    ensures ':' !in g && '.' !in g
  {
  }

  lemma {:induction false} JoinIsSpaced(gs: seq<string>)
    requires AreGroups(gs)
    ensures Spaced(Join(gs, ":")) && (Join(gs, ":") == "" <==> gs == [])
  {
    if gs != [] {
      GroupHasNoColon(gs[0]);
      if |gs| > 1 {
        JoinIsSpaced(gs[1..]);
      }
    }
  }

  lemma {:induction false} DoubleColonAt(s: string, i: int)
    ensures MatchAt(s, "::", i) <==> 0 <= i < |s| - 1 && s[i] == ':' && s[i + 1] == ':'
  {
    if MatchAt(s, "::", i) {
      MatchChars(s, "::", i);
    }
    if 0 <= i < |s| - 1 && s[i] == ':' && s[i + 1] == ':' {
      assert s[i..i + 2] == "::";
    }
  }

  lemma {:induction false} SpacedHasNoDouble(s: string)
    requires Spaced(s)
    ensures IndexOf(s, "::") == -1
  {
    IndexOfIsFirst(s, "::");
    DoubleColonAt(s, IndexOf(s, "::"));
  }

  /** Between two spaced texts the double colon is found where it was put, and only there. */
  lemma {:induction false} DoubleColonIsFound(a: string, b: string, s: string)
    requires Spaced(a) && Spaced(b) && s == a + "::" + b
    ensures IndexOf(s, "::") == |a| && IndexFrom(s, "::", |a| + 1) == -1
  {
    forall i
      ensures MatchAt(s, "::", i) <==> i == |a|
    {
      DoubleColonAt(s, i);
      DoublesOnce(a, b, i);
    }
    FoundOnlyAt(s, "::", |a|);
  }

  lemma {:induction false} DoublesOnce(a: string, b: string, i: int)
    requires Spaced(a) && Spaced(b)
    ensures var s := a + "::" + b; (0 <= i < |s| - 1 && s[i] == ':' && s[i + 1] == ':') <==> i == |a|
  {
    var s := a + "::" + b;
    assert forall k | 0 <= k < |a| :: s[k] == a[k];
    assert forall k | 0 <= k < |b| :: s[|a| + 2 + k] == b[k];
    assert |a| + 2 <= i < |s| ==> s[i] == b[i - |a| - 2];
    assert |a| + 2 <= i < |s| - 1 ==> s[i + 1] == b[i + 1 - |a| - 2];
  }

  lemma {:induction false} WordsAreGroups(s: string, ws: seq<nat>)
    ensures Words(s) == Some(ws) <==> exists gs | AreGroups(gs) :: s == Join(gs, ":") && ws == Values(gs)
  {
    if Words(s) == Some(ws) {
      if s == "" {
        var none: seq<string> := [];
        assert AreGroups(none) && s == Join(none, ":") && ws == Values(none);
      } else {
        JoinSplit(s, ":");
        var gs := Split(s, ":");
        assert AreGroups(gs) && s == Join(gs, ":") && ws == Values(gs);
      }
    }
    if exists gs | AreGroups(gs) :: s == Join(gs, ":") && ws == Values(gs) {
      var gs :| AreGroups(gs) && s == Join(gs, ":") && ws == Values(gs);
      JoinIsSpaced(gs);
      if gs != [] {
        forall k | 0 <= k < |gs| ensures ':' !in gs[k] { GroupHasNoColon(gs[k]); }
        SplitJoin(gs, ':');
      }
    }
  }

  /** The parser of groups accepts exactly the two forms, and reads exactly their words. */
  lemma {:induction false} HexReads(text: string, ws: seq<nat>)
    ensures Ipv6Hex(text) == Some(V6(ws)) <==> HexForm(text, ws)
  {
    if HexForm(text, ws) {
      HexFormIsRead(text, ws);
    }
    if Ipv6Hex(text) == Some(V6(ws)) {
      HexReadHasForm(text, ws);
    }
  }

  lemma {:induction false} HexFormIsRead(text: string, ws: seq<nat>)
    requires HexForm(text, ws)
    ensures Ipv6Hex(text) == Some(V6(ws))
  {
    if gs :| AreGroups(gs) && |gs| == 8 && text == Join(gs, ":") && ws == Values(gs) {
      JoinIsSpaced(gs);
      SpacedHasNoDouble(text);
      WordsAreGroups(text, ws);
    } else {
      var hs, ts :| AreGroups(hs) && AreGroups(ts) && Compressed(text, ws, hs, ts);
      CompressedIsRead(text, ws, hs, ts, Join(hs, ":"), Join(ts, ":"));
    }
  }

  lemma {:induction false} CompressedIsRead(text: string, ws: seq<nat>, hs: seq<string>, ts: seq<string>, a: string, b: string)
    requires AreGroups(hs) && AreGroups(ts) && a == Join(hs, ":") && b == Join(ts, ":")
    requires Compressed(text, ws, hs, ts)
    ensures Ipv6Hex(text) == Some(V6(ws))
  {
    JoinIsSpaced(hs);
    JoinIsSpaced(ts);
    DoubleColonIsFound(a, b, text);
    GroupsAreWords(hs);
    GroupsAreWords(ts);
    Sides(text, a, b);
    SidesAreRead(text, |a|, Values(hs), Values(ts));
  }

  lemma {:induction false} Sides(text: string, a: string, b: string)
    requires text == a + "::" + b
    ensures text[..|a|] == a && text[|a| + 2..] == b
  {
  }

  lemma {:induction false} SidesAreRead(text: string, i: nat, head: seq<nat>, tail: seq<nat>)
    requires IndexOf(text, "::") == i && IndexFrom(text, "::", i + 1) == -1
    requires Words(text[..i]) == Some(head) && Words(text[i + 2..]) == Some(tail) && |head| + |tail| <= 7
    ensures Ipv6Hex(text) == Some(V6(head + Zeros(8 - |head| - |tail|) + tail))
  {
  }

  lemma {:induction false} GroupsAreWords(gs: seq<string>)
    requires AreGroups(gs)
    ensures Words(Join(gs, ":")) == Some(Values(gs))
  {
    WordsAreGroups(Join(gs, ":"), Values(gs));
  }

  lemma {:induction false} HexReadHasForm(text: string, ws: seq<nat>)
    requires Ipv6Hex(text) == Some(V6(ws))
    ensures HexForm(text, ws)
  {
    IndexOfIsFirst(text, "::");
    var i := IndexOf(text, "::");
    if i == -1 {
      WordsAreGroups(text, ws);
      var gs :| AreGroups(gs) && text == Join(gs, ":") && ws == Values(gs);
      assert |gs| == 8;
    } else {
      TwoSidesHaveForm(text, text[..i], text[i + 2..], Words(text[..i]).value, Words(text[i + 2..]).value, ws);
    }
  }

  lemma {:induction false} TwoSidesHaveForm(text: string, a: string, b: string, head: seq<nat>, tail: seq<nat>, ws: seq<nat>)
    requires text == a + "::" + b && Words(a) == Some(head) && Words(b) == Some(tail)
    requires |head| + |tail| <= 7 && ws == head + Zeros(8 - |head| - |tail|) + tail
    ensures HexForm(text, ws)
  {
    WordsAreGroups(a, head);
    WordsAreGroups(b, tail);
    var hs :| AreGroups(hs) && a == Join(hs, ":") && head == Values(hs);
    var ts :| AreGroups(ts) && b == Join(ts, ":") && tail == Values(ts);
    assert Compressed(text, ws, hs, ts);
  }

  lemma {:induction false} HexFormChars(text: string, ws: seq<nat>)
    requires HexForm(text, ws)
    ensures '.' !in text && ':' in text && |ws| == 8
  {
    if gs :| AreGroups(gs) && |gs| == 8 && text == Join(gs, ":") && ws == Values(gs) {
      GroupsHaveNoDot(gs);
    } else {
      var hs, ts :| AreGroups(hs) && AreGroups(ts) && Compressed(text, ws, hs, ts);
      GroupsHaveNoDot(hs);
      GroupsHaveNoDot(ts);
    }
  }

  lemma {:induction false} GroupsHaveNoDot(gs: seq<string>)
    requires AreGroups(gs)
    ensures '.' !in Join(gs, ":") && (|gs| > 1 ==> ':' in Join(gs, ":"))
  {
    forall k | 0 <= k < |gs| ensures '.' !in gs[k] { GroupHasNoColon(gs[k]); }
    JoinChars(gs, ':', '.');
  }

  /** A text that ends in a dotted quad behind its last colon. */
  ghost predicate QuadForm(host: string, ws: seq<nat>) {
    exists x, q, b | IsQuad(b) :: EndsInQuad(host, x, q, b) && HexForm(x + QuadAsGroups(b), ws)
  }

  ghost predicate EndsInQuad(host: string, x: string, q: string, b: seq<nat>) {
    host == x + q && x != "" && x[|x| - 1] == ':' && ':' !in q && '.' in q && Ipv4(q) == Some(V4(b))
  }

  lemma {:induction false} LastColonIs(x: string, q: string)
    requires x != "" && x[|x| - 1] == ':' && ':' !in q
    ensures LastIndexOfChar(x + q, ':') == |x| - 1
  {
    var host := x + q;
    assert host[|x| - 1] == ':';
    assert forall i | |x| <= i < |host| :: host[i] == q[i - |x|] && q[i - |x|] in q;
  }

  /** Exactly what parseIpv6Loose accepts, and what it reads. */
  lemma {:induction false} Ipv6Reads(host: string, ws: seq<nat>)
    ensures Ipv6(host) == Some(V6(ws)) <==> HexForm(host, ws) || QuadForm(host, ws)
  {
    if HexForm(host, ws) {
      HexFormChars(host, ws);
      HexReads(host, ws);
    } else if QuadForm(host, ws) {
      var x, q, b :| IsQuad(b) && EndsInQuad(host, x, q, b) && HexForm(x + QuadAsGroups(b), ws);
      QuadIsRead(host, x, q, b);
      HexReads(x + QuadAsGroups(b), ws);
    }
    if Ipv6(host) == Some(V6(ws)) {
      Ipv6ReadHasForm(host, ws);
    }
  }

  lemma {:induction false} QuadIsRead(host: string, x: string, q: string, b: seq<nat>)
    requires IsQuad(b) && EndsInQuad(host, x, q, b)
    ensures Ipv6(host) == Ipv6Hex(x + QuadAsGroups(b))
  {
    LastColonIs(x, q);
    assert host[|x|..] == q && host[..|x|] == x && host[|x| - 1] == ':';
  }

  /** Whether a dotted quad at the end was turned into groups, and which. */
  lemma {:induction false} Ipv6ReadsVia(host: string, ws: seq<nat>) returns (quad: bool, x: string, q: string, b: seq<nat>)
    requires Ipv6(host) == Some(V6(ws))
    ensures quad ==> IsQuad(b) && EndsInQuad(host, x, q, b) && Ipv6Hex(x + QuadAsGroups(b)) == Some(V6(ws))
    ensures !quad ==> Ipv6Hex(host) == Some(V6(ws))
  {
    var n := LastIndexOfChar(host, ':');
    x, q, b := host[..n + 1], host[n + 1..], [];
    quad := '.' in q;
    if quad {
      b := QuadBytes(host, n, q, ws);
      LastColonSplits(host, n);
    }
  }

  lemma {:induction false} QuadBytes(host: string, n: int, q: string, ws: seq<nat>) returns (b: seq<nat>)
    requires Ipv6(host) == Some(V6(ws)) && n == LastIndexOfChar(host, ':') && q == host[n + 1..] && '.' in q
    ensures IsQuad(b) && Ipv4(q) == Some(V4(b)) && Ipv6Hex(host[..n + 1] + QuadAsGroups(b)) == Some(V6(ws))
  {
    b := Ipv4(q).value.bytes;
  }

  lemma {:induction false} LastColonSplits(host: string, n: int)
    requires ':' in host && n == LastIndexOfChar(host, ':')
    ensures n >= 0 && host == host[..n + 1] + host[n + 1..] && host[..n + 1][n] == ':' && ':' !in host[n + 1..]
  {
    assert forall i | n < i < |host| :: host[i] != ':';
    var k :| 0 <= k < |host| && host[k] == ':';
    var q := host[n + 1..];
    assert forall i | 0 <= i < |q| :: q[i] == host[n + 1 + i];
  }

  lemma {:induction false} Ipv6ReadHasForm(host: string, ws: seq<nat>)
    requires Ipv6(host) == Some(V6(ws))
    ensures HexForm(host, ws) || QuadForm(host, ws)
  {
    var quad, x, q, b := Ipv6ReadsVia(host, ws);
    if quad {
      QuadReadHasForm(host, x, q, b, ws);
    } else {
      PlainReadHasForm(host, ws);
    }
  }

  lemma {:induction false} PlainReadHasForm(host: string, ws: seq<nat>)
    requires Ipv6Hex(host) == Some(V6(ws))
    ensures HexForm(host, ws)
  {
    HexReads(host, ws);
  }

  lemma {:induction false} QuadReadHasForm(host: string, x: string, q: string, b: seq<nat>, ws: seq<nat>)
    requires IsQuad(b) && EndsInQuad(host, x, q, b) && Ipv6Hex(x + QuadAsGroups(b)) == Some(V6(ws))
    ensures QuadForm(host, ws)
  {
    HexReads(x + QuadAsGroups(b), ws);
  }

  // ---- round trips ----

  /** Groups joined by colons, with the run [from, to) written as `::` when there is one. */
  function TextOf(parts: seq<string>, gap: Option<(nat, nat)>): string
    requires gap.Some? ==> gap.value.0 <= gap.value.1 <= |parts|
  {
    if gap.None? then Join(parts, ":")
    else Join(parts[..gap.value.0], ":") + "::" + Join(parts[gap.value.1..], ":")
  }

  predicate ZeroRun(ws: seq<nat>, gap: Option<(nat, nat)>, limit: nat) {
    gap.Some? ==> gap.value.0 < gap.value.1 <= limit <= |ws| && forall k | gap.value.0 <= k < gap.value.1 :: ws[k] == 0
  }

  /** Eight words come back from their groups, upper or lower case, padded or not, with any run of
      zero words written as `::` or with none. */
  lemma {:induction false} RoundTrip(ws: seq<nat>, gs: seq<string>, gap: Option<(nat, nat)>)
    requires |gs| == 8 && AreGroups(gs) && ws == Values(gs) && ZeroRun(ws, gap, 8)
    ensures Ipv6(TextOf(gs, gap)) == Some(V6(ws))
  {
    var text := TextOf(gs, gap);
    if gap.Some? {
      var hs, ts := gs[..gap.value.0], gs[gap.value.1..];
      assert ws == Values(hs) + Zeros(8 - |hs| - |ts|) + Values(ts);
      assert Compressed(text, ws, hs, ts);
    }
    assert HexForm(text, ws);
    Ipv6Reads(text, ws);
  }

  function Lead(parts: seq<string>): string {
    if parts == [] then "" else Join(parts, ":") + ":"
  }

  lemma {:induction false} JoinLast(parts: seq<string>, last: string)
    ensures Join(parts + [last], ":") == Lead(parts) + last
  {
    if parts != [] {
      JoinLast(parts[1..], last);
      assert (parts + [last])[1..] == parts[1..] + [last];
      if |parts| > 1 {
        assert Lead(parts) == parts[0] + ":" + Lead(parts[1..]);
      }
    }
  }

  function LeadIn(parts: seq<string>, gap: Option<(nat, nat)>): string
    requires gap.Some? ==> gap.value.0 <= gap.value.1 <= |parts|
  {
    if gap.None? then Lead(parts) else Join(parts[..gap.value.0], ":") + "::" + Lead(parts[gap.value.1..])
  }

  lemma {:induction false} TextLast(parts: seq<string>, last: string, gap: Option<(nat, nat)>)
    requires gap.Some? ==> gap.value.0 <= gap.value.1 <= |parts|
    ensures TextOf(parts + [last], gap) == LeadIn(parts, gap) + last
  {
    if gap.None? {
      JoinLast(parts, last);
    } else {
      JoinLast(parts[gap.value.1..], last);
      assert (parts + [last])[..gap.value.0] == parts[..gap.value.0];
      assert (parts + [last])[gap.value.1..] == parts[gap.value.1..] + [last];
    }
  }

  lemma {:induction false} LeadInEnds(parts: seq<string>, gap: Option<(nat, nat)>)
    requires parts != [] && (gap.Some? ==> gap.value.0 <= gap.value.1 <= |parts|)
    ensures var x := LeadIn(parts, gap); x != "" && x[|x| - 1] == ':'
  {
  }

  lemma {:induction false} HexGroup(n: nat)
    requires n < 65536
    ensures IsGroup(ToHex(n)) && ParseInt(ToHex(n), 16) == n
  {
    assert Power16(4) == 65536;
    ToHexIsShort(n, 4);
    ToHexRoundTrip(n);
  }

  lemma {:induction false} LeadLast(parts: seq<string>, hi: string)
    ensures Lead(parts + [hi]) == Lead(parts) + hi + ":"
  {
    JoinLast(parts, hi);
  }

  lemma {:induction false} LeadInLast(parts: seq<string>, hi: string, gap: Option<(nat, nat)>)
    requires gap.Some? ==> gap.value.0 <= gap.value.1 <= |parts|
    ensures LeadIn(parts + [hi], gap) == LeadIn(parts, gap) + hi + ":"
  {
    if gap.None? {
      LeadLast(parts, hi);
    } else {
      assert (parts + [hi])[..gap.value.0] == parts[..gap.value.0];
      assert (parts + [hi])[gap.value.1..] == parts[gap.value.1..] + [hi];
      LeadLast(parts[gap.value.1..], hi);
    }
  }

  lemma {:induction false} Reassociate(lead: string, longer: string, hi: string, lo: string)
    requires longer == lead + hi + ":"
    ensures longer + lo == lead + (hi + ":" + lo)
  {
  }

  lemma {:induction false} TextLastTwo(parts: seq<string>, hi: string, lo: string, gap: Option<(nat, nat)>, all: seq<string>, lead: string)
    requires gap.Some? ==> gap.value.0 <= gap.value.1 <= |parts|
    requires all == parts + [hi, lo] && lead == LeadIn(parts, gap)
    ensures TextOf(all, gap) == lead + (hi + ":" + lo)
  {
    assert all == (parts + [hi]) + [lo];
    TextLast(parts + [hi], lo, gap);
    LeadInLast(parts, hi, gap);
    Reassociate(lead, LeadIn(parts + [hi], gap), hi, lo);
  }

  /** The same with the last two words written as a dotted quad. */
  lemma {:induction false} RoundTripQuad(ws: seq<nat>, gs: seq<string>, b: seq<nat>, gap: Option<(nat, nat)>)
    requires |gs| == 6 && AreGroups(gs) && IsQuad(b)
    requires ws == Values(gs) + [256 * b[0] + b[1], 256 * b[2] + b[3]] && ZeroRun(ws, gap, 6)
    ensures Ipv6(TextOf(gs + [Dotted(b)], gap)) == Some(V6(ws))
  {
    var hi, lo := ToHex(256 * b[0] + b[1]), ToHex(256 * b[2] + b[3]);
    HexGroup(256 * b[0] + b[1]);
    HexGroup(256 * b[2] + b[3]);
    var x := LeadIn(gs, gap);
    LeadInEnds(gs, gap);
    TextLast(gs, Dotted(b), gap);
    DottedRoundTrip(b);
    QuadIsRead(TextOf(gs + [Dotted(b)], gap), x, Dotted(b), b);
    TextLastTwo(gs, hi, lo, gap, gs + [hi, lo], x);
    EightGroups(gs, hi, lo, ws);
    RoundTrip(ws, gs + [hi, lo], gap);
    HexAgrees(TextOf(gs + [hi, lo], gap), x, b, ws);
  }

  lemma {:induction false} EightGroups(gs: seq<string>, hi: string, lo: string, ws: seq<nat>)
    requires |gs| == 6 && AreGroups(gs) && IsGroup(hi) && IsGroup(lo)
    requires ws == Values(gs) + [ParseInt(hi, 16), ParseInt(lo, 16)]
    ensures AreGroups(gs + [hi, lo]) && Values(gs + [hi, lo]) == ws
  {
  }

  lemma {:induction false} HexAgrees(text: string, x: string, b: seq<nat>, ws: seq<nat>)
    requires IsQuad(b) && text == x + QuadAsGroups(b) && Ipv6(text) == Some(V6(ws))
    requires x != "" && x[|x| - 1] == ':'
    ensures Ipv6Hex(text) == Some(V6(ws))
  {
    var hi, lo := ToHex(256 * b[0] + b[1]), ToHex(256 * b[2] + b[3]);
    assert text == (x + hi + ":") + lo;
    PlainEnd(text, x + hi + ":", lo);
  }

  /** An address whose last group is hexadecimal is read as groups. */
  lemma {:induction false} PlainEnd(text: string, y: string, lo: string)
    requires text == y + lo && y != "" && y[|y| - 1] == ':' && AllHex(lo)
    ensures Ipv6(text) == Ipv6Hex(text)
  {
    HexHasNoPunctuation(lo);
    LastColonIs(y, lo);
    assert text[|y| - 1] == ':' && text[|y|..] == lo;
  }

  lemma {:induction false} HexHasNoPunctuation(s: string)
    requires AllHex(s)
    ensures ':' !in s && '.' !in s
  {
  }

  // ---- addresses nobody may reach ----

  predicate IsPrivateV4(b: seq<nat>)
    requires IsQuad(b)
  {
    || b[0] == 0 || b[0] == 10 || b[0] == 127
    || (b[0] == 100 && 64 <= b[1] <= 127)
    || (b[0] == 169 && b[1] == 254)
    || (b[0] == 172 && 16 <= b[1] <= 31)
    || (b[0] == 192 && b[1] == 0 && b[2] == 0)
    || (b[0] == 192 && b[1] == 0 && b[2] == 2)
    || (b[0] == 192 && b[1] == 168)
    || (b[0] == 198 && (b[1] == 18 || b[1] == 19))
    || (b[0] == 198 && b[1] == 51 && b[2] == 100)
    || (b[0] == 203 && b[1] == 0 && b[2] == 113)
    || b[0] >= 224
  }

  predicate IsWords(w: seq<nat>) {
    |w| == 8 && forall i | 0 <= i < 8 :: w[i] < 65536
  }

  /** The IPv4 address in the last two words. */
  function Embedded(w: seq<nat>): (b: seq<nat>)
    requires IsWords(w)
    ensures IsQuad(b)
  {
    [w[6] / 256 % 256, w[6] % 256, w[7] / 256 % 256, w[7] % 256]
  }

  predicate FirstAreZero(w: seq<nat>, n: nat)
    requires n <= |w|
  {
    forall i | 0 <= i < n :: w[i] == 0
  }

  predicate IsPrivateV6(w: seq<nat>)
    requires IsWords(w)
  {
    if FirstAreZero(w, 8) then true
    else if FirstAreZero(w, 6) && w[6] == 0 && w[7] == 1 then true
    else if FirstAreZero(w, 6) then IsPrivateV4(Embedded(w))
    else if FirstAreZero(w, 5) && w[5] == 0xffff then IsPrivateV4(Embedded(w))
    else if w[0] == 0x64 && w[1] == 0xff9b then IsPrivateV4(Embedded(w))
    else
      || w[0] / 0x200 == 0xfc00 / 0x200
      || w[0] / 0x40 == 0xfe80 / 0x40
      || w[0] / 0x100 == 0xff
      || (w[0] == 0x2001 && w[1] == 0x0db8)
      || w[0] == 0x2002
  }

  /** 32-bit value of an address. */
  function AddressValue(b: seq<nat>): nat
    requires IsQuad(b)
  {
    ((b[0] * 256 + b[1]) * 256 + b[2]) * 256 + b[3]
  }

  /** The blocks the rules stand for, as first address and size. */
  const PRIVATE_BLOCKS: seq<(nat, nat)> := [
    (0x0000_0000, 0x100_0000), (0x0A00_0000, 0x100_0000), (0x7F00_0000, 0x100_0000),
    (0x6440_0000, 0x40_0000), (0xA9FE_0000, 0x1_0000), (0xAC10_0000, 0x10_0000),
    (0xC000_0000, 0x100), (0xC000_0200, 0x100), (0xC0A8_0000, 0x1_0000),
    (0xC612_0000, 0x2_0000), (0xC633_6400, 0x100), (0xCB00_7100, 0x100), (0xE000_0000, 0x2000_0000)]

  predicate InBlock(v: nat, block: (nat, nat)) {
    block.0 <= v < block.0 + block.1
  }

  /** The byte tests are exactly membership in the published blocks. */
  lemma {:induction false} PrivateV4IsBlocks(b: seq<nat>)
    requires IsQuad(b)
    ensures IsPrivateV4(b) <==> exists i | 0 <= i < |PRIVATE_BLOCKS| :: InBlock(AddressValue(b), PRIVATE_BLOCKS[i])
  {
    var v := AddressValue(b);
    var p := PRIVATE_BLOCKS;
    assert IsPrivateV4(b) <==>
      InBlock(v, p[0]) || InBlock(v, p[1]) || InBlock(v, p[2]) || InBlock(v, p[3]) || InBlock(v, p[4])
      || InBlock(v, p[5]) || InBlock(v, p[6]) || InBlock(v, p[7]) || InBlock(v, p[8]) || InBlock(v, p[9])
      || InBlock(v, p[10]) || InBlock(v, p[11]) || InBlock(v, p[12]);
  }

  /** The IPv6 blocks, as ranges of the first 32 bits. */
  const PRIVATE_BLOCKS_V6: seq<(nat, nat)> := [
    (0xFC00_0000, 0x200_0000), (0xFE80_0000, 0x40_0000), (0xFF00_0000, 0x100_0000), (0x2001_0DB8, 1), (0x2002_0000, 0x1_0000)]

  /** An IPv6 address is judged by the IPv4 address it embeds when it embeds one, else by those blocks. */
  lemma {:induction false} PrivateV6IsBlocks(w: seq<nat>)
    requires IsWords(w)
    ensures IsPrivateV6(w) <==>
      if IsEmbedding(w) then exists b | IsQuad(b) && EmbedsAt(w, b) :: IsPrivateV4(b)
      else exists i | 0 <= i < |PRIVATE_BLOCKS_V6| :: InBlock(w[0] * 65536 + w[1], PRIVATE_BLOCKS_V6[i])
  {
    var v := w[0] * 65536 + w[1];
    var p := PRIVATE_BLOCKS_V6;
    assert (exists i | 0 <= i < |p| :: InBlock(v, p[i])) <==>
      InBlock(v, p[0]) || InBlock(v, p[1]) || InBlock(v, p[2]) || InBlock(v, p[3]) || InBlock(v, p[4]);
    PrefixesOfEmbeddings(w);
    if IsEmbedding(w) {
      assert EmbedsAt(w, Embedded(w));
      forall b | IsQuad(b) && EmbedsAt(w, b)
        ensures IsPrivateV6(w) <==> IsPrivateV4(b)
      {
        EmbeddingsAgree(w, b);
      }
    }
  }

  predicate IsPrivate(ip: ParsedIp)
    requires if ip.V4? then IsQuad(ip.bytes) else IsWords(ip.words)
  {
    if ip.V4? then IsPrivateV4(ip.bytes) else IsPrivateV6(ip.words)
  }

  ghost predicate EmbedsAt(w: seq<nat>, b: seq<nat>)
    requires IsWords(w) && IsQuad(b)
  {
    w[6] == 256 * b[0] + b[1] && w[7] == 256 * b[2] + b[3]
  }

  /** An address under ::/96, under ::ffff:0:0/96, or with the words of the NAT64 prefix in front. */
  ghost predicate IsEmbedding(w: seq<nat>)
    requires IsWords(w)
  {
    w[..6] == [0, 0, 0, 0, 0, 0] || w[..6] == [0, 0, 0, 0, 0, 0xffff] || w[..2] == [0x64, 0xff9b]
  }

  lemma {:induction false} PrefixesOfEmbeddings(w: seq<nat>)
    requires IsWords(w)
    ensures IsEmbedding(w) <==>
      FirstAreZero(w, 6) || (FirstAreZero(w, 5) && w[5] == 0xffff) || (w[0] == 0x64 && w[1] == 0xff9b)
  {
    if FirstAreZero(w, 5) { assert w[..6] == [0, 0, 0, 0, 0, w[5]]; }
    assert w[..2] == [w[0], w[1]];
    forall i | 0 <= i < 6
      ensures w[..6][i] == w[i]
    {
    }
  }

  /** An IPv4 address gets the same answer in each of its IPv6 spellings: ::a.b.c.d, ::ffff:a.b.c.d
      and the NAT64 prefix, whatever the middle words of that prefix hold. */
  lemma {:induction false} EmbeddingsAgree(w: seq<nat>, b: seq<nat>)
    requires IsWords(w) && IsQuad(b) && EmbedsAt(w, b) && IsEmbedding(w)
    ensures IsPrivateV6(w) <==> IsPrivateV4(b)
  {
    PrefixesOfEmbeddings(w);
    assert Embedded(w) == b;
    if FirstAreZero(w, 6) && w[6] == 0 {
      assert b[0] == 0;
    }
  }

  const MAPPED := ["0", "0", "0", "0", "0", "ffff"]
  const COMPATIBLE := ["0", "0", "0", "0", "0", "0"]
  const NAT64 := ["64", "ff9b", "0", "0", "0", "0"]

  lemma {:induction false} PrefixWords(gs: seq<string>)
    requires gs == MAPPED || gs == COMPATIBLE || gs == NAT64
    ensures AreGroups(gs) && |gs| == 6
    ensures Values(gs) == if gs == MAPPED then [0, 0, 0, 0, 0, 0xffff] else if gs == COMPATIBLE then [0, 0, 0, 0, 0, 0]
                          else [0x64, 0xff9b, 0, 0, 0, 0]
  {
    DigitGroup("0");
    HexLiteral("64");
    HexLiteral("ff9b");
    HexLiteral("ffff");
    forall i | 0 <= i < 6
      ensures IsGroup(gs[i])
    {
      assert gs[i] == "0" || gs[i] == "ffff" || gs[i] == "64" || gs[i] == "ff9b";
    }
  }

  lemma {:induction false} ParseStep(g: string, k: nat)
    requires k < |g| && AllHex(g)
    ensures ParseInt(g[..k + 1], 16) == 16 * ParseInt(g[..k], 16) + HexValue(g[k])
  {
    assert g[..k + 1][..k] == g[..k];
  }

  lemma {:induction false} DigitGroup(g: string)
    requires g == "0"
    ensures IsGroup(g) && ParseInt(g, 16) == 0
  {
    assert g[..0] == "";
  }

  lemma {:induction false} HexLiteral(g: string)
    requires g == "64" || g == "ff9b" || g == "ffff"
    ensures IsGroup(g)
    ensures ParseInt(g, 16) == if g == "64" then 0x64 else if g == "ff9b" then 0xff9b else 0xffff
  {
    ParseStep(g, 0);
    ParseStep(g, 1);
    if |g| == 4 {
      ParseStep(g, 2);
      ParseStep(g, 3);
    }
    assert g[..0] == "" && g[..|g|] == g;
  }

  predicate PrivateHost(host: string) {
    var ip := ParseIpLiteral(host);
    ip.Some? && (if ip.value.V4? then IsQuad(ip.value.bytes) else IsWords(ip.value.words)) && IsPrivate(ip.value)
  }

  /** The same at the level of text: the dotted quad, bare or behind each prefix. */
  lemma {:induction false} SpellingsAgree(b: seq<nat>)
    requires IsQuad(b)
    ensures PrivateHost(Dotted(b)) <==> IsPrivateV4(b)
    ensures PrivateHost("::" + Dotted(b)) <==> IsPrivateV4(b)
    ensures PrivateHost("::ffff:" + Dotted(b)) <==> IsPrivateV4(b)
    ensures PrivateHost("64:ff9b::" + Dotted(b)) <==> IsPrivateV4(b)
  {
    DottedRoundTrip(b);
    SpellingAgrees(b, COMPATIBLE, (0, 6), "::" + Dotted(b));
    SpellingAgrees(b, MAPPED, (0, 5), "::ffff:" + Dotted(b));
    SpellingAgrees(b, NAT64, (2, 6), "64:ff9b::" + Dotted(b));
  }

  lemma {:induction false} SpellingAgrees(b: seq<nat>, gs: seq<string>, gap: (nat, nat), host: string)
    requires IsQuad(b)
    requires (gs, gap) == (COMPATIBLE, (0, 6)) || (gs, gap) == (MAPPED, (0, 5)) || (gs, gap) == (NAT64, (2, 6))
    requires host == (if gs == COMPATIBLE then "::" else if gs == MAPPED then "::ffff:" else "64:ff9b::") + Dotted(b)
    ensures PrivateHost(host) <==> IsPrivateV4(b)
  {
    PrefixWords(gs);
    var ws := Values(gs) + [256 * b[0] + b[1], 256 * b[2] + b[3]];
    PrefixEmbeds(b, Values(gs), gap, ws);
    RoundTripQuad(ws, gs, b, Some(gap));
    PrefixText(gs, gap, Dotted(b), host);
    EmbeddingsAgree(ws, b);
    assert ParseIpLiteral(host) == Some(V6(ws));
  }

  lemma {:induction false} PrefixEmbeds(b: seq<nat>, head: seq<nat>, gap: (nat, nat), ws: seq<nat>)
    requires IsQuad(b) && ws == head + [256 * b[0] + b[1], 256 * b[2] + b[3]]
    requires (head, gap) == ([0, 0, 0, 0, 0, 0], (0, 6)) || (head, gap) == ([0, 0, 0, 0, 0, 0xffff], (0, 5))
             || (head, gap) == ([0x64, 0xff9b, 0, 0, 0, 0], (2, 6))
    ensures IsWords(ws) && EmbedsAt(ws, b) && IsEmbedding(ws) && ZeroRun(ws, Some(gap), 6)
  {
    assert forall k | 0 <= k < 6 :: ws[k] == head[k];
  }

  lemma {:induction false} PrefixText(gs: seq<string>, gap: (nat, nat), last: string, host: string)
    requires (gs, gap) == (COMPATIBLE, (0, 6)) || (gs, gap) == (MAPPED, (0, 5)) || (gs, gap) == (NAT64, (2, 6))
    requires host == (if gs == COMPATIBLE then "::" else if gs == MAPPED then "::ffff:" else "64:ff9b::") + last
    ensures TextOf(gs + [last], Some(gap)) == host
  {
    TextLast(gs, last, Some(gap));
    var front, back := gs[..gap.0], gs[gap.1..];
    if gs == COMPATIBLE {
      assert front == [] && back == [];
    } else if gs == MAPPED {
      assert front == [] && back == ["ffff"];
    } else {
      assert front == ["64", "ff9b"] && back == [];
      assert front[1..] == ["ff9b"];
    }
  }

  lemma {:induction false} ParseIntBound(s: string)
    requires AllHex(s)
    ensures ParseInt(s, 16) < Power16(|s|)
  {
    if s != "" {
      ParseIntBound(s[..|s| - 1]);
    }
  }

  lemma {:induction false} Power16Grows(a: nat, b: nat)
    requires a <= b
    ensures Power16(a) <= Power16(b)
    decreases b
  {
    if a < b {
      Power16Grows(a, b - 1);
    }
  }

  lemma {:induction false} ValuesAreWords(gs: seq<string>)
    requires AreGroups(gs)
    ensures forall i | 0 <= i < |gs| :: Values(gs)[i] < 65536
  {
    assert Power16(4) == 65536;
    forall i | 0 <= i < |gs|
      ensures Values(gs)[i] < 65536
    {
      ParseIntBound(gs[i]);
      Power16Grows(|gs[i]|, 4);
    }
  }

  lemma {:induction false} HexFormIsWords(text: string, ws: seq<nat>)
    requires HexForm(text, ws)
    ensures IsWords(ws)
  {
    if gs :| AreGroups(gs) && |gs| == 8 && text == Join(gs, ":") && ws == Values(gs) {
      ValuesAreWords(gs);
    } else {
      var hs, ts :| AreGroups(hs) && AreGroups(ts) && Compressed(text, ws, hs, ts);
      ValuesAreWords(hs);
      ValuesAreWords(ts);
    }
  }

  /** Whatever parses has four bytes or eight 16-bit words. */
  lemma {:induction false} LiteralShape(host: string)
    requires ParseIpLiteral(host).Some?
    ensures var ip := ParseIpLiteral(host).value; if ip.V4? then IsQuad(ip.bytes) else IsWords(ip.words)
  {
    if Ipv6(host).Some? {
      var ws := Ipv6(host).value.words;
      Ipv6Reads(host, ws);
      if HexForm(host, ws) {
        HexFormIsWords(host, ws);
      } else {
        var x, q, b :| IsQuad(b) && EndsInQuad(host, x, q, b) && HexForm(x + QuadAsGroups(b), ws);
        HexFormIsWords(x + QuadAsGroups(b), ws);
      }
    }
  }

  // ---- the guard in front of every outbound request ----

  datatype Reason =
    | UserinfoPresent | SchemeNotAllowed | PortNotAllowed | IpLiteralNotAllowed | PrivateAddress
    | HostNotAllowed | TooManyRedirects | InvalidUrl

  /** A URL as the platform's parser hands it over. */
  datatype Url = Url(protocol: string, username: string, password: string, hostname: string,
                     port: Option<nat>, path: string)

  datatype Options = Options(allowedHosts: seq<string>, allowSubdomains: bool, allowedPorts: seq<nat>, maxRedirects: nat)

  const CONNECTOR_OPTIONS := Options(["api.hubapi.com", "api.resend.com", "api.stripe.com"], false, [443], 3)

  function StripDots(h: string): (r: string)
    ensures r == "" || r[|r| - 1] != '.'
  {
    if h != "" && h[|h| - 1] == '.' then StripDots(h[..|h| - 1]) else h
  }

  /** `lower` is the platform's toLowerCase. */
  function NormaliseHost(lower: string -> string, hostname: string): string {
    var h := lower(hostname);
    StripDots(if |h| >= 2 && h[0] == '[' && h[|h| - 1] == ']' then h[1..|h| - 1] else h)
  }

  function EndsWith(s: string, t: string): bool {
    |s| >= |t| && s[|s| - |t|..] == t
  }

  predicate HostMatches(lower: string -> string, host: string, entry: string, subdomains: bool) {
    var allowed := NormaliseHost(lower, entry);
    allowed != "" && (host == allowed || (subdomains && EndsWith(host, "." + allowed)))
  }

  predicate HostAllowed(lower: string -> string, host: string, opts: Options) {
    exists i | 0 <= i < |opts.allowedHosts| :: HostMatches(lower, host, opts.allowedHosts[i], opts.allowSubdomains)
  }

  function CheckUrl(lower: string -> string, url: Url, opts: Options): Result<Url, Reason> {
    if url.username != "" || url.password != "" then Err(UserinfoPresent)
    else if url.protocol != "https:" then Err(SchemeNotAllowed)
    else if (if url.port.None? then 443 else url.port.value) !in opts.allowedPorts then Err(PortNotAllowed)
    else
      var host := NormaliseHost(lower, url.hostname);
      if ParseIpLiteral(host).Some? then Err(if PrivateHost(host) then PrivateAddress else IpLiteralNotAllowed)
      else if !HostAllowed(lower, host, opts) then Err(HostNotAllowed)
      else Ok(url)
  }

  // ---- the guard, said without the functions that normalise and compare hosts ----

  ghost predicate AllDots(s: string) {
    forall i | 0 <= i < |s| :: s[i] == '.'
  }

  ghost predicate Bracketed(h: string, inner: string) {
    h == "[" + inner + "]"
  }

  /** host is the name in lower case, out of its brackets and without trailing dots. */
  ghost predicate HostIs(lower: string -> string, hostname: string, host: string) {
    && (host != "" ==> host[|host| - 1] != '.')
    && exists dots | AllDots(dots) ::
         || Bracketed(lower(hostname), host + dots)
         || (lower(hostname) == host + dots && forall inner :: !Bracketed(lower(hostname), inner))
  }

  lemma {:induction false} DotsAreStripped(h: string) returns (dots: string)
    ensures AllDots(dots) && h == StripDots(h) + dots
  {
    if h != "" && h[|h| - 1] == '.' {
      var rest := DotsAreStripped(h[..|h| - 1]);
      dots := rest + ".";
      assert h == h[..|h| - 1] + ".";
    } else {
      dots := "";
    }
  }

  lemma {:induction false} StripsDots(host: string, dots: string)
    requires AllDots(dots) && (host != "" ==> host[|host| - 1] != '.')
    ensures StripDots(host + dots) == host
  {
    if dots == "" {
      assert host + dots == host;
    } else {
      var n := |dots| - 1;
      assert (host + dots)[|host| + n] == dots[n];
      assert (host + dots)[..|host| + n] == host + dots[..n];
      StripsDots(host, dots[..n]);
    }
  }

  lemma {:induction false} BracketedIs(h: string, inner: string)
    ensures Bracketed(h, inner) <==> |h| >= 2 && h[0] == '[' && h[|h| - 1] == ']' && inner == h[1..|h| - 1]
  {
    if |h| >= 2 && h[0] == '[' && h[|h| - 1] == ']' {
      assert h == "[" + h[1..|h| - 1] + "]";
    }
  }

  lemma {:induction false} HostIsNormalised(lower: string -> string, hostname: string, host: string)
    ensures HostIs(lower, hostname, host) <==> host == NormaliseHost(lower, hostname)
  {
    var h := lower(hostname);
    forall inner
      ensures Bracketed(h, inner) <==> |h| >= 2 && h[0] == '[' && h[|h| - 1] == ']' && inner == h[1..|h| - 1]
    {
      BracketedIs(h, inner);
    }
    var core := if |h| >= 2 && h[0] == '[' && h[|h| - 1] == ']' then h[1..|h| - 1] else h;
    var dots := DotsAreStripped(core);
    assert Bracketed(h, core) || (h == core && forall inner :: !Bracketed(h, inner));
    assert HostIs(lower, hostname, StripDots(core));
    if HostIs(lower, hostname, host) {
      var d :| AllDots(d) && (Bracketed(h, host + d) || (h == host + d && forall inner :: !Bracketed(h, inner)));
      StripsDots(host, d);
    }
  }

  /** A host is allowed exactly when it is a listed name or, with subdomains, ends in a dot and one. */
  lemma {:induction false} AllowedExactly(lower: string -> string, host: string, opts: Options)
    ensures HostAllowed(lower, host, opts) <==>
      exists entry, name | entry in opts.allowedHosts && HostIs(lower, entry, name) && name != "" ::
        AtOrUnder(host, name, opts.allowSubdomains)
  {
    forall entry, name
      ensures HostIs(lower, entry, name) <==> name == NormaliseHost(lower, entry)
    {
      HostIsNormalised(lower, entry, name);
    }
    forall entry
      ensures HostMatches(lower, host, entry, opts.allowSubdomains) <==>
        var name := NormaliseHost(lower, entry); name != "" && AtOrUnder(host, name, opts.allowSubdomains)
    {
      UnderName(host, "." + NormaliseHost(lower, entry));
    }
    forall i | 0 <= i < |opts.allowedHosts|
      ensures opts.allowedHosts[i] in opts.allowedHosts
    {
    }
  }

  /** The name itself or, with subdomains, something in front of a dot and the name. */
  ghost predicate AtOrUnder(host: string, name: string, subdomains: bool) {
    host == name || (subdomains && exists sub :: host == sub + ("." + name))
  }

  lemma {:induction false} UnderName(host: string, tail: string)
    ensures EndsWith(host, tail) <==> exists sub :: host == sub + tail
  {
    if EndsWith(host, tail) {
      assert host == host[..|host| - |tail|] + tail;
    }
  }

  /** The three provider names are no addresses. */
  lemma {:induction false} NamesAreNoLiterals(a: string, b: string, host: string)
    requires host == a + "." + b + ".com" && a == "api" && '.' !in b && ':' !in b
    ensures ParseIpLiteral(host).None?
  {
    var parts := [a, b, "com"];
    JoinThree(a, b, "com");
    assert host == Join(parts, ".");
    SplitJoin(parts, '.');
    JoinChars(parts, '.', ':');
    assert PartValue(a).None? && parts[..1] == [a] && PartValues([a]).None?;
    NoPartNoAddress(parts, 1);
  }

  ghost predicate ProviderName(host: string) {
    host == "api.hubapi.com" || host == "api.resend.com" || host == "api.stripe.com"
  }

  lemma {:induction false} ProviderNames(host: string)
    requires ProviderName(host)
    ensures ParseIpLiteral(host).None?
  {
    if host == "api.hubapi.com" {
      NamesAreNoLiterals("api", "hubapi", host);
    } else if host == "api.resend.com" {
      NamesAreNoLiterals("api", "resend", host);
    } else {
      NamesAreNoLiterals("api", "stripe", host);
    }
  }

  lemma {:induction false} JoinThree(a: string, b: string, c: string)
    ensures Join([a, b, c], ".") == a + "." + (b + "." + c)
  {
    var three, two := [a, b, c], [b, c];
    assert three[1..] == two && two[1..] == [c];
    assert Join(two, ".") == b + "." + Join([c], ".");
    assert Join(three, ".") == a + "." + Join(two, ".");
  }

  /** What may be fetched: https, port 443, no credentials in the URL, one of the three names. */
  ghost predicate Safe443(lower: string -> string, url: Url) {
    && url.protocol == "https:" && url.username == "" && url.password == ""
    && url.port in {None, Some(443)}
    && exists host :: HostIs(lower, url.hostname, host) && ProviderName(host)
  }

  /** The connectors' guard lets through exactly that, and says why not otherwise: user information before the scheme,
      the scheme before the port, the port before the host. */
  lemma {:induction false} ConnectorGuard(lower: string -> string, url: Url)
    requires forall h | h in CONNECTOR_OPTIONS.allowedHosts :: lower(h) == h
    ensures CheckUrl(lower, url, CONNECTOR_OPTIONS) == Ok(url) <==> Safe443(lower, url)
    ensures CheckUrl(lower, url, CONNECTOR_OPTIONS).Ok? ==> Safe443(lower, url)
    ensures var r := CheckUrl(lower, url, CONNECTOR_OPTIONS);
      var plain := url.username == "" && url.password == "";
      var here := plain && url.protocol == "https:" && url.port in {None, Some(443)};
      && (r == Err(UserinfoPresent) <==> !plain)
      && (r == Err(SchemeNotAllowed) <==> plain && url.protocol != "https:")
      && (r == Err(PortNotAllowed) <==> plain && url.protocol == "https:" && url.port !in {None, Some(443)})
      && (here && !Safe443(lower, url) ==> exists host | HostIs(lower, url.hostname, host) ::
            r == Err(match ParseIpLiteral(host)
                     case None => HostNotAllowed
                     case Some(ip) => if LiteralIsPrivate(ip) then PrivateAddress else IpLiteralNotAllowed))
  {
    var host := NormaliseHost(lower, url.hostname);
    forall h
      ensures HostIs(lower, url.hostname, h) <==> h == host
    {
      HostIsNormalised(lower, url.hostname, h);
    }
    ListedHost(lower, host);
    ListedIsProvider(host);
    if ProviderName(host) { ProviderNames(host); }
    if ParseIpLiteral(host).Some? { LiteralVerdict(host); }
    GuardBranches(lower, url, host);
    assert HostIs(lower, url.hostname, host);
  }

  lemma {:induction false} GuardBranches(lower: string -> string, url: Url, host: string)
    requires host == NormaliseHost(lower, url.hostname)
    ensures CheckUrl(lower, url, CONNECTOR_OPTIONS) ==
      if !(url.username == "" && url.password == "") then Err(UserinfoPresent)
      else if url.protocol != "https:" then Err(SchemeNotAllowed)
      else if url.port !in {None, Some(443)} then Err(PortNotAllowed)
      else if ParseIpLiteral(host).Some? then Err(if PrivateHost(host) then PrivateAddress else IpLiteralNotAllowed)
      else if !HostAllowed(lower, host, CONNECTOR_OPTIONS) then Err(HostNotAllowed)
      else Ok(url)
  {
    OnlyPort(if url.port.None? then 443 else url.port.value);
  }

  lemma {:induction false} OnlyPort(port: nat)
    ensures port in CONNECTOR_OPTIONS.allowedPorts <==> port == 443
  {
    assert CONNECTOR_OPTIONS.allowedPorts == [443];
  }

  lemma {:induction false} LiteralVerdict(host: string)
    requires ParseIpLiteral(host).Some?
    ensures PrivateHost(host) <==> LiteralIsPrivate(ParseIpLiteral(host).value)
  {
  }

  ghost predicate LiteralIsPrivate(ip: ParsedIp) {
    match ip
    case V4(bytes) => IsQuad(bytes) && IsPrivateV4(bytes)
    case V6(words) => IsWords(words) && IsPrivateV6(words)
  }

  lemma {:induction false} ListedIsProvider(host: string)
    ensures host in CONNECTOR_OPTIONS.allowedHosts <==> ProviderName(host)
  {
  }

  /** Without subdomains a host is allowed exactly when it is one of the three names. */
  lemma {:induction false} ListedHost(lower: string -> string, host: string)
    requires forall h | h in CONNECTOR_OPTIONS.allowedHosts :: lower(h) == h
    ensures HostAllowed(lower, host, CONNECTOR_OPTIONS) <==> host in CONNECTOR_OPTIONS.allowedHosts
  {
    var hosts := CONNECTOR_OPTIONS.allowedHosts;
    forall i | 0 <= i < |hosts|
      ensures NormaliseHost(lower, hosts[i]) == hosts[i] && hosts[i] != ""
    {
      assert hosts[i] in hosts;
    }
    assert forall i | 0 <= i < |hosts| :: HostMatches(lower, host, hosts[i], false) <==> host == hosts[i];
  }
}
