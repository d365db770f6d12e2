/** The request signature said without the functions that read and write it: the header's grammar, the signed bytes, the
    digest's text and the window of time. */
module SignedRequests {
  import opened Text
  import opened ConstantTime
  import opened Signatures

  // ---- the header ----

  ghost predicate Entry(core: string, name: string, value: string) {
    name != "" && '=' !in name && core == name + "=" + value
  }

  /** A time of one to fifteen digits, a signature, or an entry of another name, which says nothing. */
  ghost predicate EntrySays(name: string, value: string, times: seq<string>, values: seq<string>) {
    if name == "t" then
      1 <= |value| <= 15 && (forall i | 0 <= i < |value| :: '0' <= value[i] <= '9') && times == [value] && values == []
    else if name == "v1" then value != "" && times == [] && values == [value]
    else times == [] && values == []
  }

  ghost predicate CoreSays(core: string, times: seq<string>, values: seq<string>) {
    || (core == "" && times == [] && values == [])
    || exists name, value | Entry(core, name, value) :: EntrySays(name, value, times, values)
  }

  /** One piece between commas, without the white space around it: blank, or an entry. */
  ghost predicate PieceSays(piece: string, times: seq<string>, values: seq<string>) {
    exists core | IsCore(piece, core) :: CoreSays(core, times, values)
  }

  ghost predicate Both(times: seq<string>, values: seq<string>, t: seq<string>, v: seq<string>, t': seq<string>, v': seq<string>) {
    times == t' + t && values == v' + v
  }

  ghost predicate PiecesSay(pieces: seq<string>, times: seq<string>, values: seq<string>)
    decreases |pieces|
  {
    if pieces == [] then times == [] && values == []
    else
      exists t, v, t', v' | PieceSays(pieces[|pieces| - 1], t, v) && PiecesSay(pieces[..|pieces| - 1], t', v') ::
        Both(times, values, t, v, t', v')
  }

  ghost predicate InPieces(header: string, pieces: seq<string>) {
    pieces != [] && header == Join(pieces, ",") && forall i | 0 <= i < |pieces| :: ',' !in pieces[i]
  }

  /** The header holds this one time and these signatures, in order. */
  ghost predicate HeaderSays(header: string, time: nat, values: seq<string>) {
    exists pieces, digits | InPieces(header, pieces) && PiecesSay(pieces, [digits], values) :: Numeral(digits, time)
  }

  lemma {:induction false} EntryIs(core: string, name: string, value: string)
    ensures Entry(core, name, value) <==> Eq(core) > 0 && NameOf(core) == name && ValueOf(core) == value
  {
    IndexOfIsFirst(core, "=");
    if Entry(core, name, value) {
      var at := |name|;
      assert core[at..at + 1] == "=" && MatchAt(core, "=", at);
      assert forall i | 0 <= i < at :: core[i] == name[i] && name[i] in name;
      forall i | MatchAt(core, "=", i)
        ensures i >= at
      {
        MatchChars(core, "=", i);
      }
      assert core[..at] == name && core[at + 1..] == value;
    }
    if Eq(core) > 0 {
      var at := Eq(core);
      MatchChars(core, "=", at);
      assert core == core[..at] + [core[at]] + core[at + 1..];
      forall i | 0 <= i < at
        ensures core[i] != '='
      {
        assert core[i..i + 1] == [core[i]];
        assert core[i] == '=' ==> MatchAt(core, "=", i);
      }
    }
  }

  lemma {:induction false} PieceIsPart(piece: string, part: string, times: seq<string>, values: seq<string>)
    requires part == Trim(piece)
    ensures PieceSays(piece, times, values)
       <==> PartReads(part) && times == OneNamed(part, TIME) && values == OneNamed(part, SCHEME)
  {
    forall core
      ensures IsCore(piece, core) <==> core == part
    {
      TrimIsCore(piece, core);
    }
    CoreIsRead(part, times, values);
  }

  lemma {:induction false} CoreIsRead(part: string, times: seq<string>, values: seq<string>)
    ensures CoreSays(part, times, values)
       <==> PartReads(part) && times == OneNamed(part, TIME) && values == OneNamed(part, SCHEME)
  {
    forall name, value
      ensures Entry(part, name, value) <==> Eq(part) > 0 && NameOf(part) == name && ValueOf(part) == value
    {
      EntryIs(part, name, value);
    }
    if Eq(part) > 0 {
      EntryIsRead(part, NameOf(part), ValueOf(part), times, values);
    }
  }

  lemma {:induction false} EntryIsRead(part: string, name: string, value: string, times: seq<string>, values: seq<string>)
    requires Eq(part) > 0 && name == NameOf(part) && value == ValueOf(part)
    ensures EntrySays(name, value, times, values)
       <==> PartReads(part) && times == OneNamed(part, TIME) && values == OneNamed(part, SCHEME)
  {
    assert part != "";
  }

  lemma {:induction false} PiecesAreParts(pieces: seq<string>, parts: seq<string>, times: seq<string>, values: seq<string>)
    requires |parts| == |pieces| && forall i | 0 <= i < |pieces| :: parts[i] == Trim(pieces[i])
    ensures PiecesSay(pieces, times, values)
       <==> AllRead(parts) && times == Named(parts, TIME) && values == Named(parts, SCHEME)
    decreases |pieces|
  {
    if pieces != [] {
      var n := |pieces| - 1;
      var init, last := pieces[..n], pieces[n];
      var t, v, t', v' := OneNamed(parts[n], TIME), OneNamed(parts[n], SCHEME), Named(parts[..n], TIME), Named(parts[..n], SCHEME);
      forall a, b
        ensures PieceSays(last, a, b) <==> PartReads(parts[n]) && a == t && b == v
      {
        PieceIsPart(last, parts[n], a, b);
      }
      forall a, b
        ensures PiecesSay(init, a, b) <==> AllRead(parts[..n]) && a == t' && b == v'
      {
        PiecesAreParts(init, parts[..n], a, b);
      }
      AllReadLast(parts);
      JoinedPieces(pieces, init, last, times, values, AllRead(parts[..n]), PartReads(parts[n]), t, v, t', v');
    }
  }

  lemma {:induction false} JoinedPieces(pieces: seq<string>, init: seq<string>, last: string, times: seq<string>, values: seq<string>,
                                        ok: bool, okLast: bool, t: seq<string>, v: seq<string>, t': seq<string>, v': seq<string>)
    requires pieces != [] && init == pieces[..|pieces| - 1] && last == pieces[|pieces| - 1]
    requires forall a, b :: PieceSays(last, a, b) <==> okLast && a == t && b == v
    requires forall a, b :: PiecesSay(init, a, b) <==> ok && a == t' && b == v'
    ensures PiecesSay(pieces, times, values) <==> ok && okLast && times == t' + t && values == v' + v
  {
    if ok && okLast && times == t' + t && values == v' + v {
      assert PieceSays(last, t, v) && PiecesSay(init, t', v') && Both(times, values, t, v, t', v');
    }
  }

  lemma {:induction false} AllReadLast(parts: seq<string>)
    requires parts != []
    ensures AllRead(parts) <==> AllRead(parts[..|parts| - 1]) && PartReads(parts[|parts| - 1])
  {
    if AllRead(parts[..|parts| - 1]) && PartReads(parts[|parts| - 1]) {
      AllReadGrows(parts, |parts| - 1);
      assert parts[..|parts|] == parts;
    }
  }

  lemma {:induction false} PiecesAreSplit(header: string, pieces: seq<string>)
    ensures InPieces(header, pieces) <==> pieces == Split(header, ",")
  {
    JoinSplit(header, ",");
    SplitFree(header, ",", ",");
    forall i | 0 <= i < |Split(header, ",")|
      ensures ',' !in Split(header, ",")[i]
    {
      var part := Split(header, ",")[i];
      assert part in Split(header, ",");
      FreeOfChar(part, ',');
    }
    if InPieces(header, pieces) {
      SplitJoin(pieces, ',');
    }
  }

  lemma {:induction false} FreeOfChar(s: string, c: char)
    requires !Occurs(s, [c])
    ensures c !in s
  {
    forall i | 0 <= i < |s|
      ensures s[i] != c
    {
      assert s[i..i + 1] == [s[i]];
      assert !MatchAt(s, [c], i);
    }
  }

  /** The loop that reads the header reads that grammar. */
  lemma {:induction false} HeaderIsRead(header: string, time: nat, values: seq<string>)
    ensures HeaderSays(header, time, values) <==>
      Readable(header) && TimeOf(header) == time && Signatures.Signatures(header) == values
  {
    var pieces, parts := Split(header, ","), Parts(header);
    forall ps
      ensures InPieces(header, ps) <==> ps == pieces
    {
      PiecesAreSplit(header, ps);
    }
    forall digits
      ensures PiecesSay(pieces, [digits], values) && Numeral(digits, time) <==> OneTime(parts, digits, time, values)
    {
      PiecesAreParts(pieces, parts, [digits], values);
      DigitsWriteTheirValue(digits, time);
    }
    ReadsOneTime(header, parts, time, values);
    if ps, digits :| InPieces(header, ps) && PiecesSay(ps, [digits], values) && Numeral(digits, time) {
      assert ps == pieces && OneTime(parts, digits, time, values);
    }
    if digits :| OneTime(parts, digits, time, values) {
      assert InPieces(header, pieces) && PiecesSay(pieces, [digits], values) && Numeral(digits, time);
    }
  }

  ghost predicate OneTime(parts: seq<string>, digits: string, time: nat, values: seq<string>) {
    && AllRead(parts) && Named(parts, TIME) == [digits] && Named(parts, SCHEME) == values
    && AllDigits(digits) && DecimalValue(digits) == time
  }

  lemma {:induction false} ReadsOneTime(header: string, parts: seq<string>, time: nat, values: seq<string>)
    requires parts == Parts(header)
    ensures (exists digits :: OneTime(parts, digits, time, values)) <==>
      Readable(header) && TimeOf(header) == time && Signatures.Signatures(header) == values
  {
    if Readable(header) {
      var digits := Named(parts, TIME)[0];
      NamedIsTime(parts, 0);
      assert Named(parts, TIME) == [digits];
      assert OneTime(parts, digits, TimeOf(header), Signatures.Signatures(header));
    }
  }

  // ---- what is signed ----

  /** digits is how t is written: in decimal, without a zero in front. */
  ghost predicate WrittenAs(t: nat, digits: string) {
    Numeral(digits, t) && digits != "" && (digits[0] == '0' ==> digits == "0")
  }

  lemma {:induction false} WrittenAsDecimal(t: nat, digits: string)
    ensures WrittenAs(t, digits) <==> digits == Decimal(t)
    decreases t
  {
    DecimalIsNumeral(t);
    if WrittenAs(t, digits) {
      var n := |digits| - 1;
      if n > 0 {
        assert digits[..n][0] == digits[0];
        if t < 10 {
          DigitsWriteTheirValue(digits[..n], 0);
          LeadingZero(digits[..n]);
        } else {
          WrittenAsDecimal(t / 10, digits[..n]);
          assert digits == digits[..n] + [digits[n]];
        }
      } else {
        assert digits[..0] == "" && digits == [digits[0]];
        assert Numeral("", t / 10);
        assert t < 10 && digits[0] as int == 48 + t && DigitChar(t) as int == 48 + t;
      }
    }
  }

  /** Digits that write zero start with one. */
  lemma {:induction false} LeadingZero(digits: string)
    requires Numeral(digits, 0) && digits != ""
    ensures digits[0] == '0'
  {
    if |digits| > 1 {
      LeadingZero(digits[..|digits| - 1]);
    }
  }

  /** The signed bytes: the digits of the time, a full stop, and the body as it came. */
  ghost predicate PayloadOf(p: seq<nat>, t: nat, body: seq<nat>) {
    exists digits | WrittenAs(t, digits) ::
      && |p| == |digits| + 1 + |body| && (forall i | 0 <= i < |digits| :: p[i] == digits[i] as nat)
      && p[|digits|] == 46 && p[|digits| + 1..] == body
  }

  lemma {:induction false} PayloadIs(p: seq<nat>, t: nat, body: seq<nat>)
    ensures PayloadOf(p, t, body) <==> p == SignedPayload(t, body)
  {
    var digits := Decimal(t);
    forall d
      ensures WrittenAs(t, d) <==> d == digits
    {
      WrittenAsDecimal(t, d);
    }
    var q := SignedPayload(t, body);
    assert q[|digits|] == '.' as nat == 46 && q[|digits| + 1..] == body;
    if PayloadOf(p, t, body) {
      assert p == p[..|digits|] + [p[|digits|]] + p[|digits| + 1..];
      assert p[..|digits|] == q[..|digits|];
    }
  }

  const HEX := "0123456789abcdef"

  /** Two lower-case hexadecimal digits for each byte, the higher half first. */
  ghost predicate HexOf(s: string, b: seq<nat>)
    requires IsBytes(b)
  {
    |s| == 2 * |b| && forall i | 0 <= i < |b| :: s[2 * i] == HEX[b[i] / 16] && s[2 * i + 1] == HEX[b[i] % 16]
  }

  lemma {:induction false} HexIs(s: string, b: seq<nat>)
    requires IsBytes(b)
    ensures HexOf(s, b) <==> s == ToHex(b)
  {
    if b != [] {
      var t := ToHex(b);
      assert t[0] == HexChar(b[0] / 16) && t[1] == HexChar(b[0] % 16) && t[2..] == ToHex(b[1..]);
      HexDigit(b[0] / 16);
      HexDigit(b[0] % 16);
      if |s| == |t| {
        HexIs(s[2..], b[1..]);
        assert forall i | 0 <= i < |b| - 1 :: s[2..][2 * i] == s[2 * (i + 1)] && s[2..][2 * i + 1] == s[2 * (i + 1) + 1] && b[1..][i] == b[i + 1];
        assert s == [s[0], s[1]] + s[2..] && t == [t[0], t[1]] + t[2..];
        HexShift(s, b);
      }
    }
  }

  lemma {:induction false} HexShift(s: string, b: seq<nat>)
    requires IsBytes(b) && b != [] && |s| == 2 * |b|
    ensures HexOf(s, b) <==> s[0] == HEX[b[0] / 16] && s[1] == HEX[b[0] % 16] && HexOf(s[2..], b[1..])
  {
    if s[0] == HEX[b[0] / 16] && s[1] == HEX[b[0] % 16] && HexOf(s[2..], b[1..]) {
      forall i | 0 <= i < |b|
        ensures s[2 * i] == HEX[b[i] / 16] && s[2 * i + 1] == HEX[b[i] % 16]
      {
        if i > 0 { assert s[2..][2 * (i - 1)] == s[2 * i] && b[1..][i - 1] == b[i]; }
      }
    }
  }

  lemma {:induction false} HexDigit(d: nat)
    requires d < 16
    ensures HexChar(d) == HEX[d]
  {
  }

  /** The digest of the time and the body under the secret, as text. */
  ghost predicate Digests(mac: Mac, secret: string, t: nat, body: seq<nat>, hex: string)
    requires IsMac(mac)
  {
    exists p | PayloadOf(p, t, body) :: HexOf(hex, mac(secret, p))
  }

  lemma {:induction false} DigestIs(mac: Mac, secret: string, t: nat, body: seq<nat>, hex: string)
    requires IsMac(mac)
    ensures Digests(mac, secret, t, body, hex) <==> hex == ToHex(mac(secret, SignedPayload(t, body)))
  {
    PayloadIs(SignedPayload(t, body), t, body);
    HexIs(hex, mac(secret, SignedPayload(t, body)));
    if Digests(mac, secret, t, body, hex) {
      var p :| PayloadOf(p, t, body) && HexOf(hex, mac(secret, p));
      PayloadIs(p, t, body);
    }
  }

  // ---- the verdict ----

  /** The header's time lies ahead of the clock by more than the tolerance, in milliseconds. */
  ghost predicate TooEarly(t: nat, now: int, tolerance: int) {
    1000 * (t - tolerance) > now
  }

  /** It lies behind by more than the tolerance, by whole seconds of the clock. */
  ghost predicate TooLate(t: nat, now: int, tolerance: int) {
    1000 * (t + tolerance + 1) <= now
  }

  lemma {:induction false} WindowIs(t: nat, now: int, tolerance: int)
    ensures t > UnixSeconds(now) + tolerance <==> TooEarly(t, now, tolerance)
    ensures t < UnixSeconds(now) - tolerance <==> TooLate(t, now, tolerance)
  {
  }

  /** The verdict on a request, from the header's text and the clock in milliseconds: what is missing or does not read,
      then the time, then whether some signature is the digest at the header's own time. */
  lemma {:induction false} VerdictExactly(mac: Mac, lower: string -> string, secret: string, header: Option<string>, body: seq<nat>,
                                          now: int, tolerance: int, t: nat, values: seq<string>)
    requires IsMac(mac)
    ensures var v := Check(mac, lower, secret, header, body, now, tolerance);
      && (v == Invalid(MissingHeader) <==> header.None? || !Visible(header.value))
      && (v == Invalid(MalformedHeader) <==>
            header.Some? && Visible(header.value) && forall time, sigs :: !HeaderSays(header.value, time, sigs))
      && (header.Some? && Visible(header.value) && HeaderSays(header.value, t, values) ==>
            v == if values == [] then Invalid(MissingSignature)
                 else if TooEarly(t, now, tolerance) then Invalid(TimestampInFuture)
                 else if TooLate(t, now, tolerance) then Invalid(TimestampStale)
                 else if exists sig, hex | sig in values && Digests(mac, secret, t, body, hex) :: Agree(hex, lower(sig)) then Valid(t)
                 else Invalid(SignatureMismatch))
  {
    if header.Some? {
      VisibleIsTrimmed(header.value);
      forall time, sigs
        ensures HeaderSays(header.value, time, sigs) <==>
          Readable(header.value) && TimeOf(header.value) == time && Signatures.Signatures(header.value) == sigs
      {
        HeaderIsRead(header.value, time, sigs);
      }
      if Readable(header.value) {
        assert HeaderSays(header.value, TimeOf(header.value), Signatures.Signatures(header.value));
      }
      if Visible(header.value) && HeaderSays(header.value, t, values) {
        WindowIs(t, now, tolerance);
        MatchesIs(mac, lower, secret, header.value, body, t, values);
        CheckOnceRead(mac, lower, secret, header.value, body, now, tolerance, t, values);
      }
    }
  }

  lemma {:induction false} CheckOnceRead(mac: Mac, lower: string -> string, secret: string, header: string, body: seq<nat>,
                                         now: int, tolerance: int, t: nat, values: seq<string>)
    requires IsMac(mac) && Trim(header) != "" && Readable(header)
    requires TimeOf(header) == t && Signatures.Signatures(header) == values
    ensures Check(mac, lower, secret, Some(header), body, now, tolerance) ==
      if values == [] then Invalid(MissingSignature)
      else if t > UnixSeconds(now) + tolerance then Invalid(TimestampInFuture)
      else if t < UnixSeconds(now) - tolerance then Invalid(TimestampStale)
      else if Matches(mac, lower, secret, header, body) then Valid(t)
      else Invalid(SignatureMismatch)
  {
  }

  lemma {:induction false} MatchesIs(mac: Mac, lower: string -> string, secret: string, header: string, body: seq<nat>,
                                     t: nat, values: seq<string>)
    requires IsMac(mac) && Readable(header) && TimeOf(header) == t && Signatures.Signatures(header) == values
    ensures Matches(mac, lower, secret, header, body) <==>
      exists sig, hex | sig in values && Digests(mac, secret, t, body, hex) :: Agree(hex, lower(sig))
  {
    var digest := ToHex(mac(secret, SignedPayload(t, body)));
    DigestIs(mac, secret, t, body, digest);
    if sig, hex :| sig in values && Digests(mac, secret, t, body, hex) && Agree(hex, lower(sig)) {
      DigestIs(mac, secret, t, body, hex);
      var i :| 0 <= i < |values| && values[i] == sig;
    }
    if i :| 0 <= i < |values| && Agree(digest, lower(values[i])) {
      assert values[i] in values;
    }
  }

  /** Our own header, letter by letter. */
  lemma {:induction false} SignedLetters(mac: Mac, secret: string, body: seq<nat>, t: nat)
    requires IsMac(mac)
    ensures exists digits, hex | WrittenAs(t, digits) && Digests(mac, secret, t, body, hex) ::
      SignRequest(mac, secret, body, t) == "t=" + digits + ",v1=" + hex
  {
    var digits, hex := Decimal(t), ToHex(mac(secret, SignedPayload(t, body)));
    WrittenAsDecimal(t, digits);
    DigestIs(mac, secret, t, body, hex);
    assert SignRequest(mac, secret, body, t) == "t=" + digits + ",v1=" + hex;
  }
}
